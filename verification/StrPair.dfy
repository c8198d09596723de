/**
 tinyxml2's StrPair: a start and an end pointer into the one character buffer of the document.
 The text between them is decoded in place when it is first asked for.
 */
module StrPairs {
  import opened Bytes
  import opened Decoding
  import opened Collapsing
  import CharRef

  /** The inner loop of the entity branch: the first table entry that matches after the ampersand. */
  method FindEntity(s: Bytes) returns (r: Option<Entity>)
    requires s != []
    ensures r == EntityFrom(s, 0)
  {
    for i := 0 to |ENTITIES|
      invariant EntityFrom(s, 0) == EntityFrom(s, i)
    {
      if EntityTail(ENTITIES[i]) <= s[1..] {
        return Some(ENTITIES[i]);
      }
    }
    return None;
  }

  /** The branches of the decoding loop, at the text s that is still to be read. */
  method ReadToken(s: Bytes, f: Flags) returns (t: Token)
    requires s != []
    ensures t == NextToken(s, f)
  {
    if f.newlines && s[0] == CR {
      t := Emit([LF], if At(s, 1) == LF then 2 else 1);
    } else if f.newlines && s[0] == LF {
      t := Emit([LF], if At(s, 1) == CR then 2 else 1);
    } else if f.entities && s[0] == AMP {
      if At(s, 1) == HASH {
        var r := CharRef.GetCharacterRef(s);
        t := if r.Invalid? then Emit([AMP], 1) else Emit(r.bytes, r.consumed);
      } else {
        var e := FindEntity(s);
        t := if e.Some? then Emit([e.value.value], |e.value.pattern| + 2) else PassOver;
      }
    } else {
      t := Emit([s[0]], 1);
    }
  }

  /** b with the bytes w stored from index k on. */
  ghost function Patched(b: Bytes, k: nat, w: Bytes): (r: Bytes)
    requires k + |w| <= |b|
    ensures |r| == |b|
  {
    b[..k] + w + b[k + |w|..]
  }

  lemma {:induction false} PatchNothing(b: Bytes, k: nat)
    requires k <= |b|
    ensures Patched(b, k, []) == b
  {
  }

  lemma {:induction false} PatchMore(b: Bytes, k: nat, w: Bytes, v: Bytes)
    requires k + |w| + |v| <= |b|
    ensures Patched(Patched(b, k, w), k + |w|, v) == Patched(b, k, w + v)
  {
  }

  /** Passing over a byte is storing the byte that is there. */
  lemma {:induction false} PatchSame(b: Bytes, k: nat, w: Bytes)
    requires k + |w| < |b|
    ensures Patched(b, k, w + [b[k + |w|]]) == Patched(b, k, w)
  {
  }

  /** What lies beyond the stored bytes is still to be read. */
  lemma {:induction false} PatchAhead(b: Bytes, k: nat, w: Bytes, p: nat, e: nat)
    requires k + |w| <= p <= e <= |b|
    ensures Patched(b, k, w)[p..e] == b[p..e]
  {
  }

  /** a and b agree before index k and after index e. */
  ghost predicate SameOutside(a: Bytes, b: Bytes, k: nat, e: nat) {
    |a| == |b| && forall i | 0 <= i < |a| && (i < k || e < i) :: a[i] == b[i]
  }

  lemma {:induction false} PatchOutside(b: Bytes, k: nat, w: Bytes, from: nat, e: nat)
    requires from <= k && k + |w| <= e + 1 <= |b|
    ensures SameOutside(b, Patched(b, k, w), from, e)
  {
  }

  lemma {:induction false} PatchTerminated(b: Bytes, k: nat, s: Bytes)
    requires k + |s| < |b| && b[k..k + |s|] == s && b[k + |s|] == 0
    ensures Patched(b, k, s + [0]) == b
  {
    assert b == b[..k] + b[k..k + |s|] + [b[k + |s|]] + b[k + |s| + 1..];
  }

  /** What C code reads where s and a NUL have been stored. */
  lemma {:induction false} PatchString(b: Bytes, k: nat, s: Bytes)
    requires k + |s| < |b|
    ensures CString(Patched(b, k, s + [0])[k..]) == CString(s)
    ensures |CString(s)| <= |s| && 0 !in CString(s)
    ensures Patched(b, k, s + [0])[k..k + |CString(s)|] == CString(s)
    ensures Patched(b, k, s + [0])[k + |CString(s)|] == 0
  {
    var u := Patched(b, k, s + [0])[k..];
    assert u[..|s|] == s && u[|s|] == 0;
    StrOf(u, s);
  }

  /** What C code reads in bytes that start with s and a NUL. */
  lemma {:induction false} StrOf(b: Bytes, s: Bytes)
    requires |s| < |b| && b[..|s|] == s && b[|s|] == 0
    ensures CString(b) == CString(s)
    ensures |CString(s)| <= |s| && 0 !in CString(s)
    ensures b[..|CString(s)|] == CString(s) && b[|CString(s)|] == 0
  {
    if s != [] && s[0] != 0 {
      assert b[0] == s[0];
      assert b[1..][..|s| - 1] == s[1..];
      StrOf(b[1..], s[1..]);
    }
  }

  class StrPair {
    var buffer: array<byte>
    var start: nat
    var end: nat
    var needsFlush: bool
    var needsDelete: bool
    var flags: Flags

    ghost predicate Valid()
      reads this
    {
      start <= end < buffer.Length
    }

    /** StrPair::Set, which is how the parser fills a pair. */
    constructor Set(buffer: array<byte>, start: nat, end: nat, flags: Flags)
      requires start <= end < buffer.Length
      ensures Valid() && needsFlush && !needsDelete
      ensures this.buffer == buffer && this.start == start && this.end == end && this.flags == flags
    {
      this.buffer, this.start, this.end, this.flags := buffer, start, end, flags;
      needsFlush, needsDelete := true, false;
    }

    /** The C string at the start pointer. */
    ghost function Str(): Bytes
      requires Valid()
      reads this, buffer
    {
      CString(buffer[start..])
    }

    /** The out-of-place result for the text between the pointers. */
    ghost function Pending(): Bytes
      requires Valid()
      reads this, buffer
    {
      Rewrite(buffer[start..end], 0, [], flags)
    }

    /**
     A second call changes nothing. The first call stores, from the start pointer on, the result of
     the out-of-place transducer and a NUL, and puts a NUL at the end pointer. No other byte of the
     buffer changes. Collapsing then works inside that string.
     */
    method GetStr()
      requires Valid()
      modifies this, buffer
      ensures Valid() && !needsFlush && buffer == old(buffer) && end == old(end) && old(start) <= start
      ensures old(!needsFlush) ==> buffer[..] == old(buffer[..]) && start == old(start) && flags == old(flags)
      ensures old(needsFlush) ==> |old(Pending())| <= end - old(start)
      ensures old(needsFlush) ==> Str() == StrValue(old(buffer[start..end]), old(flags)) && start + |Str()| <= end
      ensures old(needsFlush && !flags.collapse) ==>
                && start == old(start)
                && buffer[..] == Patched(old(buffer[..])[end := 0], start, old(Pending()) + [0])
      ensures SameOutside(old(buffer[..]), buffer[..], old(start), end)
    {
      if needsFlush {
        Flush();
      }
    }

    /** The part of GetStr that runs once. */
    method Flush()
      requires Valid() && needsFlush
      modifies this, buffer
      ensures Valid() && !needsFlush && buffer == old(buffer) && end == old(end) && old(start) <= start
      ensures |old(Pending())| <= end - old(start)
      ensures Str() == StrValue(old(buffer[start..end]), old(flags)) && start + |Str()| <= end
      ensures !old(flags.collapse) ==>
                && start == old(start)
                && buffer[..] == Patched(old(buffer[..])[end := 0], start, old(Pending()) + [0])
      ensures SameOutside(old(buffer[..]), buffer[..], old(start), end)
    {
      hide Patched, CString, Collapse, Rewrite;
      ghost var was, result := buffer[..][end := 0], Pending();
      DecodeText();
      PatchString(was, start, result);
      PatchOutside(was, start, result + [0], start, end);
      assert buffer[start..] == buffer[..][start..];
      if flags.collapse {
        ghost var b, text := buffer[..], CString(result);
        assert buffer[start..start + |text|] == text;
        CollapseWhitespace(|text|);
        PatchOutside(b, start, Collapse(text) + [0], old(start), end);
      }
      flags := NO_FLAGS;
    }

    /** GetStr up to the white space: the text is decoded in place, unless there is nothing to decode. */
    method DecodeText()
      requires Valid() && needsFlush
      modifies this`needsFlush, buffer
      ensures !needsFlush && |old(Pending())| <= end - start
      ensures buffer[..] == Patched(old(buffer[..])[end := 0], start, old(Pending()) + [0])
    {
      hide Patched, Rewrite;
      ghost var was, s := buffer[..][end := 0], buffer[start..end];
      buffer[end] := 0;
      needsFlush := false;
      assert buffer[..] == was && buffer[start..end] == s;
      if flags != NO_FLAGS || needsDelete {
        RewriteInPlace();
      } else {
        assert s[..0] == [];
        RewriteWithoutFlags(s, 0);
        PatchTerminated(was, start, s);
      }
    }

    /** The decoding loop of GetStr: the write pointer never passes the read pointer. */
    method RewriteInPlace()
      requires Valid()
      modifies buffer
      ensures var result := Rewrite(old(buffer[start..end]), 0, [], flags);
              |result| <= end - start && buffer[..] == Patched(old(buffer[..]), start, result + [0])
    {
      hide NextToken, Rewrite, Patched;
      ghost var s, was := buffer[start..end], buffer[..];
      ghost var out: Bytes := [];
      var p, q := start, start;
      PatchNothing(was, start);
      while p < end
        invariant start <= q <= p <= end && |out| == q - start
        invariant buffer[..] == Patched(was, start, out)
        invariant Rewrite(s, 0, [], flags) == Rewrite(s, p - start, out, flags)
      {
        PatchAhead(was, start, out, p, end);
        assert buffer[p..end] == was[p..end] == s[p - start..];
        var t := ReadToken(buffer[p..end], flags);
        RewriteTurn(s, p - start, out, flags);
        match t
        case Emit(bytes, consumed) =>
          Store(q, bytes);
          PatchMore(was, start, out, bytes);
          out := out + bytes;
          p, q := p + consumed, q + |bytes|;
        case PassOver =>
          PatchSame(was, start, out);
          out := out + [was[q]];
          p, q := p + 1, q + 1;
      }
      RewriteEnd(s, out, flags);
      Store(q, [0]);
      PatchMore(was, start, out, [0]);
    }

    /** memcpy to the write pointer. */
    method Store(q: nat, bytes: Bytes)
      requires q + |bytes| <= buffer.Length
      modifies buffer
      ensures buffer[..] == Patched(old(buffer[..]), q, bytes)
    {
      forall k | 0 <= k < |bytes| {
        buffer[q + k] := bytes[k];
      }
    }

    /** In place; n is the length of the C string at the start pointer. */
    method CollapseWhitespace(ghost n: nat)
      requires Valid() && start + n <= end && buffer[start + n] == 0 && 0 !in buffer[start..start + n]
      modifies this`start, buffer
      ensures Valid() && old(start) <= start
      ensures var result := Collapse(old(buffer[start..start + n]));
              && start + |result| <= old(start) + n
              && buffer[..] == Patched(old(buffer[..]), start, result + [0])
              && Str() == result
    {
      ghost var s, was, top := buffer[start..start + n], buffer[..], start + n;
      start := SkipTo(start, top);
      ghost var t := SkipSpace(s);
      assert t == buffer[start..top];
      assert forall k | 0 <= k < |t| :: t[k] == s[k + |s| - |t|];
      SqueezeIsCollapse(s);
      if buffer[start] != 0 {
        SqueezeInPlace(start, top);
      } else {
        assert t == [];
        PatchTerminated(was, start, []);
        assert [] + [0] == [0];
      }
      assert Collapse(s) + [0] == Squeeze(t) + [0];
      PatchString(was, start, Collapse(s));
      SqueezeNulFree(t);
      CStringOfNulFree(Collapse(s));
    }

    /** The copying loop: a run of white space is written as one space, or not at all at the end. */
    method SqueezeInPlace(from: nat, ghost top: nat)
      requires from <= top < buffer.Length && buffer[top] == 0 && 0 !in buffer[from..top]
      modifies buffer
      ensures var result := Squeeze(old(buffer[from..top]));
              from + |result| <= top && buffer[..] == Patched(old(buffer[..]), from, result + [0])
    {
      hide Squeeze, Patched, SkipSpace, IsWhiteSpace;
      ghost var was := buffer[..];
      ghost var out: Bytes := [];
      var p, q := from, from;
      PatchNothing(was, from);
      assert was[from..top] == buffer[from..top];
      while buffer[p] != 0
        invariant Squeezing(was, from, top, p, q, out)
        decreases top - p
      {
        p, q, out := SqueezeGap(p, q, was, from, top, out);
        if buffer[p] == 0 {
          break;
        }
        SqueezeByte(was[p..top]);
        ghost var more := Squeeze(was[p + 1..top]);
        assert was[p..top][1..] == was[p + 1..top];
        assert out + ([was[p]] + more) == (out + [was[p]]) + more;
        out := Put(q, buffer[p], was, from, out);
        q := q + 1;
        p := p + 1;
        Unread(was, from, out, p, top);
      }
      Unread(was, from, out, p, top);
      assert p == top && was[top..top] == [];
      SqueezeEmpty();
      assert out + [] == out;
      out := Put(q, 0, was, from, out);
    }

    /** What the copying loop keeps: out has been written, and the text from p on is still to be read. */
    ghost predicate Squeezing(was: Bytes, from: nat, top: nat, p: nat, q: nat, out: Bytes)
      reads this, buffer
    {
      && from <= q <= p <= top < buffer.Length == |was| && was[top] == 0 && 0 !in was[from..top]
      && |out| == q - from && buffer[..] == Patched(was, from, out)
      && Squeeze(was[from..top]) == out + Squeeze(was[p..top]) && buffer[p] == was[p]
    }

    /** White space at p is skipped, and written as one space unless the text ends there. */
    method SqueezeGap(p: nat, q: nat, ghost was: Bytes, ghost from: nat, ghost top: nat, ghost out: Bytes)
      returns (p': nat, q': nat, ghost out': Bytes)
      requires Squeezing(was, from, top, p, q, out) && buffer[p] != 0
      modifies buffer
      ensures Squeezing(was, from, top, p', q', out') && p <= p'
      ensures buffer[p'] == 0 || (p' < top && !IsWhiteSpace(was[p']) && q' < buffer.Length)
    {
      hide Squeeze, Patched, SkipSpace, IsWhiteSpace;
      p', q', out' := p, q, out;
      Unread(was, from, out, p, top);
      if IsWhiteSpace(buffer[p]) {
        SqueezeSpace(was[p..top]);
        p' := SkipTo(p, top);
        Unread(was, from, out, p', top);
        assert SkipSpace(was[p..top]) == was[p'..top];
        if buffer[p'] == 0 {
          assert p' == top && was[top..top] == [];
          SqueezeEmpty();
        } else {
          assert was[p'] == was[p'..top][0];
          ghost var more := Squeeze(was[p'..top]);
          assert out + ([SPACE] + more) == (out + [SPACE]) + more;
          out' := Put(q, SPACE, was, from, out);
          q' := q + 1;
          Unread(was, from, out', p', top);
        }
      }
    }

    /** `*q = c` where out has been written so far. */
    method Put(q: nat, c: byte, ghost was: Bytes, ghost from: nat, ghost out: Bytes) returns (ghost out': Bytes)
      requires q < buffer.Length == |was| && q == from + |out|
      requires buffer[..] == Patched(was, from, out)
      modifies buffer
      ensures out' == out + [c] && buffer[..] == Patched(was, from, out')
    {
      hide Patched;
      Store(q, [c]);
      PatchMore(was, from, out, [c]);
      out' := out + [c];
    }

    lemma Unread(was: Bytes, from: nat, out: Bytes, p: nat, top: nat)
      requires from + |out| <= p <= top < buffer.Length == |was|
      requires buffer[..] == Patched(was, from, out)
      ensures buffer[p..top] == was[p..top] && buffer[p] == was[p] && buffer[top] == was[top]
    {
      hide Patched;
      PatchAhead(was, from, out, p, top + 1);
      assert buffer[..][p..top + 1][..top - p] == buffer[p..top];
      assert buffer[p] == buffer[..][p..top + 1][0];
      assert buffer[top] == buffer[..][p..top + 1][top - p];
    }

    method SkipTo(p: nat, ghost top: nat) returns (r: nat)
      requires p <= top < buffer.Length && buffer[top] == 0
      ensures p <= r <= top && buffer[r..top] == SkipSpace(buffer[p..top])
    {
      var line;
      r, line := SkipWhiteSpace(buffer[..], p, 0);
      ghost var s, z := buffer[p..top], buffer[top..];
      assert buffer[..][p..] == s + z;
      SkipSpaceBefore(s, z);
      assert |buffer[..][r..]| == |SkipSpace(s)| + |z|;
      assert (SkipSpace(s) + z)[..|SkipSpace(s)|] == SkipSpace(s);
      assert buffer[..][r..][..top - r] == buffer[r..top];
    }
  }
}
