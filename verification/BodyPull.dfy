/** The two producers of response bodies: from one buffer, and from a list of buffers gathered from guest memory. */
module BodyPull {
  import opened Bytes

  datatype Status = OK | END

  /** One call: the bytes handed over, what remains, and the status. */
  datatype Pulled<S> = Pulled(chunk: Bytes, rest: S, status: Status)

  function Min(a: nat, b: nat): nat {
    if a < b then a else b
  }

  function Concat(segments: seq<Bytes>): Bytes {
    if segments == [] then [] else segments[0] + Concat(segments[1..])
  }

  lemma {:induction false} ConcatUnfold(segments: seq<Bytes>)
    requires segments != []
    ensures Concat(segments) == segments[0] + Concat(segments[1..])
  {
  }

  lemma {:induction false} ConcatFirst(chunk: Bytes, chunks: seq<Bytes>)
    ensures Concat([chunk] + chunks) == chunk + Concat(chunks)
  {
    assert ([chunk] + chunks)[1..] == chunks;
  }

  lemma {:induction false} ConcatNothing()
    ensures Concat([]) == []
  {
  }

  /** Taking n bytes more. */
  lemma {:induction false} TakeMore(first: Bytes, rest: Bytes, n: nat)
    requires n <= |rest|
    ensures (first + rest)[..|first| + n] == first + rest[..n]
    ensures (first + rest)[|first| + n..] == rest[n..]
  {
  }

  /** Taking part of the first piece. */
  lemma {:induction false} TakeLess(first: Bytes, rest: Bytes, n: nat)
    requires n <= |first|
    ensures (first + rest)[..n] == first[..n]
    ensures (first + rest)[n..] == first[n..] + rest
  {
  }

  /** What a pull means: as many bytes as fit, and END with the last of them. */
  function FlatPull(body: Bytes, max: nat): Pulled<Bytes> {
    var len := Min(|body|, max);
    Pulled(body[..len], body[len..], if len == |body| then END else OK)
  }

  /** What the loop over the buffers computes. */
  function SegmentPull(segments: seq<Bytes>, max: nat): Pulled<seq<Bytes>>
    requires segments != []
    decreases segments
  {
    var len := Min(|segments[0]|, max);
    if len < |segments[0]| then Pulled(segments[0][..len], [segments[0][len..]] + segments[1..], OK)
    else if |segments| == 1 then Pulled(segments[0], [], END)
    else if max == len then Pulled(segments[0], segments[1..], OK)
    else
      var next := SegmentPull(segments[1..], max - len);
      Pulled(segments[0] + next.chunk, next.rest, next.status)
  }

  /** The guard under which the end of the body is reported with its last byte. */
  predicate EndsOnTime(segments: seq<Bytes>, max: nat)
    requires segments != []
  {
    |Concat(segments)| != max || |segments| == 1 || segments[|segments| - 1] != []
  }

  lemma {:induction false} ConcatLast(segments: seq<Bytes>)
    requires segments != [] && segments[|segments| - 1] != []
    ensures Concat(segments) != []
  {
    if |segments| > 1 {
      ConcatLast(segments[1..]);
    }
  }

  /** Any list of buffers yields the bytes of the whole body; the status is the same exactly if EndsOnTime. */
  lemma {:induction false} SegmentsAreBody(segments: seq<Bytes>, max: nat)
    requires segments != []
    ensures var r, flat := SegmentPull(segments, max), FlatPull(Concat(segments), max);
            && r.chunk == flat.chunk && Concat(r.rest) == flat.rest
            && (r.status == flat.status <==> EndsOnTime(segments, max))
            && (r.status == END ==> flat.status == END && r.rest == []) && (r.status == OK ==> r.rest != [])
    decreases segments
  {
    hide Concat;
    var first, others := segments[0], segments[1..];
    var len := Min(|first|, max);
    ConcatUnfold(segments);
    if len < |first| {
      TakeLess(first, Concat(others), len);
      ConcatFirst(first[len..], others);
    } else if |segments| == 1 {
      ConcatNothing();
      assert first + [] == first && first[..|first|] == first;
    } else if max == len {
      TakeMore(first, Concat(others), 0);
      assert first + Concat(others)[..0] == first && Concat(others)[0..] == Concat(others);
      if segments[|segments| - 1] != [] {
        ConcatLast(others);
      }
    } else {
      SegmentsAreBody(others, max - len);
      TakeMore(first, Concat(others), Min(|Concat(others)|, max - len));
    }
  }

  ghost predicate NonEmpty(segments: seq<Bytes>) {
    forall i | 0 <= i < |segments| :: segments[i] != []
  }

  lemma {:induction false} RestNonEmpty(segments: seq<Bytes>, max: nat)
    requires segments != [] && NonEmpty(segments)
    ensures NonEmpty(SegmentPull(segments, max).rest)
    decreases segments
  {
    var len := Min(|segments[0]|, max);
    if len == |segments[0]| && |segments| > 1 && max != len {
      RestNonEmpty(segments[1..], max - len);
    }
  }

  // ---- Whole transfers ---------------------------------------------------------------------------------

  /** The chunks of a transfer with the given capacities, and whether it came to its end. */
  datatype Transfer = Transfer(chunks: seq<Bytes>, ended: bool)

  function FlatTransfer(body: Bytes, capacities: seq<nat>): Transfer
    decreases capacities
  {
    if capacities == [] then Transfer([], false)
    else
      var r := FlatPull(body, capacities[0]);
      if r.status == END then Transfer([r.chunk], true)
      else
        var t := FlatTransfer(r.rest, capacities[1..]);
        Transfer([r.chunk] + t.chunks, t.ended)
  }

  function SegmentTransfer(segments: seq<Bytes>, capacities: seq<nat>): Transfer
    requires segments != []
    decreases capacities
  {
    if capacities == [] then Transfer([], false)
    else
      SegmentsAreBody(segments, capacities[0]);
      var r := SegmentPull(segments, capacities[0]);
      if r.status == END then Transfer([r.chunk], true)
      else
        var t := SegmentTransfer(r.rest, capacities[1..]);
        Transfer([r.chunk] + t.chunks, t.ended)
  }

  /** With no empty buffer, every call of every transfer is as if the body were in one piece. */
  lemma {:induction false} SameTransfer(segments: seq<Bytes>, capacities: seq<nat>)
    requires segments != [] && NonEmpty(segments)
    ensures SegmentTransfer(segments, capacities) == FlatTransfer(Concat(segments), capacities)
    decreases capacities
  {
    if capacities != [] {
      SegmentsAreBody(segments, capacities[0]);
      RestNonEmpty(segments, capacities[0]);
      var r := SegmentPull(segments, capacities[0]);
      if r.status == OK {
        SameTransfer(r.rest, capacities[1..]);
      }
    }
  }

  function Sum(capacities: seq<nat>): nat {
    if capacities == [] then 0 else capacities[0] + Sum(capacities[1..])
  }

  /** The chunks make up the body from its start; the transfer has ended exactly if they are all of it. */
  lemma {:induction false} TransferIsBody(body: Bytes, capacities: seq<nat>)
    requires body != []
    ensures var t := FlatTransfer(body, capacities);
            && Concat(t.chunks) == body[..Min(|body|, Sum(capacities))]
            && (t.ended <==> |body| <= Sum(capacities))
            && (t.ended ==> t.chunks != [] && t.chunks[|t.chunks| - 1] != [])
    decreases capacities
  {
    hide Concat;
    if capacities == [] {
      ConcatNothing();
    } else {
      var r, others := FlatPull(body, capacities[0]), capacities[1..];
      if r.status == OK {
        TransferIsBody(r.rest, others);
        ConcatFirst(r.chunk, FlatTransfer(r.rest, others).chunks);
        assert body == r.chunk + r.rest;
        TakeMore(r.chunk, r.rest, Min(|r.rest|, Sum(others)));
      } else {
        ConcatFirst(body, []);
        ConcatNothing();
        assert body + [] == body && [body] + [] == [body] && body[..|body|] == body;
      }
    }
  }

  /** The transfer of a body in pieces: the same, for the producer with many buffers. */
  lemma {:induction false} SegmentTransferIsBody(segments: seq<Bytes>, capacities: seq<nat>)
    requires segments != [] && NonEmpty(segments)
    ensures var t, body := SegmentTransfer(segments, capacities), Concat(segments);
            && Concat(t.chunks) == body[..Min(|body|, Sum(capacities))]
            && (t.ended <==> |body| <= Sum(capacities))
            && (t.ended ==> t.chunks != [] && t.chunks[|t.chunks| - 1] != [])
  {
    assert segments[0] != [];
    SameTransfer(segments, capacities);
    TransferIsBody(Concat(segments), capacities);
  }

  // ---- Transfers of any buffers ------------------------------------------------------------------------

  /** The number of empty buffers at the end. */
  function Trailing(segments: seq<Bytes>): nat {
    if Concat(segments) == [] then |segments| else Trailing(segments[1..])
  }

  /** The number of calls at the end that have no room. */
  function TrailingZeros(capacities: seq<nat>): nat {
    if Sum(capacities) == 0 then |capacities| else TrailingZeros(capacities[1..])
  }

  /** A pull that does not end leaves the empty buffers at the end, or takes one of them if there is nothing else. */
  lemma {:induction false} PullTrailing(segments: seq<Bytes>, max: nat)
    requires segments != [] && SegmentPull(segments, max).status == OK
    ensures |Concat(segments)| >= max
    ensures var rest := SegmentPull(segments, max).rest;
            Trailing(rest) == if Concat(segments) == [] then Trailing(segments) - 1 else Trailing(segments)
    decreases segments
  {
    hide Concat;
    var first, others := segments[0], segments[1..];
    var len := Min(|first|, max);
    ConcatUnfold(segments);
    SegmentsAreBody(segments, max);
    if len < |first| {
      ConcatFirst(first[len..], others);
      assert ([first[len..]] + others)[1..] == others;
    } else if max != len {
      PullTrailing(others, max - len);
    }
  }

  lemma {:induction false} ConcatNone(chunks: seq<Bytes>)
    requires Concat(chunks) == []
    ensures forall i | 0 <= i < |chunks| :: chunks[i] == []
  {
    if chunks != [] {
      ConcatNone(chunks[1..]);
    }
  }

  /** The chunks of a transfer of any buffers, against those of the whole body. */
  ghost predicate SameChunks(t: Transfer, u: Transfer) {
    u.chunks <= t.chunks && forall i | |u.chunks| <= i < |t.chunks| :: t.chunks[i] == []
  }

  /** There was more room than needed; or just enough, and then calls without room for the empty buffers at the end. */
  predicate EndReached(segments: seq<Bytes>, capacities: seq<nat>) {
    || |Concat(segments)| < Sum(capacities)
    || (|Concat(segments)| == Sum(capacities) && Trailing(segments) <= TrailingZeros(capacities))
  }

  lemma {:induction false} EndReachedNow(segments: seq<Bytes>, capacities: seq<nat>)
    requires segments != [] && capacities != [] && SegmentPull(segments, capacities[0]).status == END
    ensures EndReached(segments, capacities) && |Concat(segments)| <= capacities[0]
  {
    hide Concat, SegmentPull;
    SegmentsAreBody(segments, capacities[0]);
    if |Concat(segments)| == Sum(capacities) {
      ZerosAfter(capacities);
      if segments[|segments| - 1] != [] {
        NoTrailing(segments);
      } else {
        ConcatUnfold(segments);
        ConcatNothing();
        assert segments[1..] == [] && segments[0] + [] == [];
      }
    }
  }

  lemma {:induction false} ZerosAfter(capacities: seq<nat>)
    requires capacities != []
    ensures Sum(capacities[1..]) == 0 ==>
              TrailingZeros(capacities) == if capacities[0] == 0 then |capacities| else |capacities| - 1
    ensures Sum(capacities[1..]) > 0 ==> TrailingZeros(capacities) == TrailingZeros(capacities[1..])
  {
  }

  lemma {:induction false} NoTrailing(segments: seq<Bytes>)
    requires segments != [] && segments[|segments| - 1] != []
    ensures Trailing(segments) == 0
  {
    ConcatLast(segments);
    if |segments| > 1 {
      NoTrailing(segments[1..]);
    } else {
      assert segments[1..] == [];
    }
  }

  /** A call that does not end the transfer: it is then left to the other calls. */
  lemma {:induction false} EndReachedLater(segments: seq<Bytes>, capacities: seq<nat>)
    requires segments != [] && capacities != [] && SegmentPull(segments, capacities[0]).status == OK
    ensures EndReached(segments, capacities)
            <==> EndReached(SegmentPull(segments, capacities[0]).rest, capacities[1..])
  {
    hide Concat, SegmentPull, TrailingZeros;
    SegmentsAreBody(segments, capacities[0]);
    PullTrailing(segments, capacities[0]);
    ZerosAfter(capacities);
    AllZeros(capacities[1..]);
    hide Trailing;
    AllEmpty(SegmentPull(segments, capacities[0]).rest);
  }

  lemma {:induction false} AllZeros(capacities: seq<nat>)
    ensures Sum(capacities) == 0 ==> TrailingZeros(capacities) == |capacities|
  {
  }

  lemma {:induction false} AllEmpty(segments: seq<Bytes>)
    ensures Concat(segments) == [] ==> Trailing(segments) == |segments|
  {
  }

  lemma {:induction false} AnyBytes(segments: seq<Bytes>, capacities: seq<nat>)
    requires segments != []
    ensures var body := Concat(segments);
            Concat(SegmentTransfer(segments, capacities).chunks) == body[..Min(|body|, Sum(capacities))]
    decreases capacities
  {
    hide Concat, SegmentPull;
    if capacities == [] {
      ConcatNothing();
    } else {
      var c, others, body := capacities[0], capacities[1..], Concat(segments);
      var r, flat := SegmentPull(segments, c), FlatPull(body, c);
      SegmentsAreBody(segments, c);
      if r.status == END {
        ConcatOne(r.chunk);
      } else {
        AnyBytes(r.rest, others);
        ConcatFirst(r.chunk, SegmentTransfer(r.rest, others).chunks);
        assert flat.chunk + flat.rest == body;
        TakeMore(flat.chunk, flat.rest, Min(|flat.rest|, Sum(others)));
      }
    }
  }

  lemma {:induction false} AnyChunks(segments: seq<Bytes>, capacities: seq<nat>)
    requires segments != []
    ensures SameChunks(SegmentTransfer(segments, capacities), FlatTransfer(Concat(segments), capacities))
    decreases capacities
  {
    hide Concat, SegmentPull;
    if capacities != [] {
      var c, others := capacities[0], capacities[1..];
      var r, flat := SegmentPull(segments, c), FlatPull(Concat(segments), c);
      SegmentsAreBody(segments, c);
      if r.status == OK {
        var t := SegmentTransfer(r.rest, others);
        if flat.status == END {
          AnyBytes(r.rest, others);
          ConcatNone(t.chunks);
        } else {
          AnyChunks(r.rest, others);
          ChunksMore(r.chunk, t.chunks, FlatTransfer(flat.rest, others).chunks);
        }
      }
    }
  }

  lemma {:induction false} ChunksMore(chunk: Bytes, t: seq<Bytes>, u: seq<Bytes>)
    requires u <= t && forall i | |u| <= i < |t| :: t[i] == []
    ensures [chunk] + u <= [chunk] + t && forall i | |u| + 1 <= i < |t| + 1 :: ([chunk] + t)[i] == []
  {
  }

  /**
   For any buffers and capacities: the chunks are those of the transfer of the whole body, followed by
   empty ones, and make up the body from its start; the transfer has ended exactly if EndReached.
   */
  lemma {:induction false} AnyTransfer(segments: seq<Bytes>, capacities: seq<nat>)
    requires segments != []
    ensures var t, body := SegmentTransfer(segments, capacities), Concat(segments);
            && SameChunks(t, FlatTransfer(body, capacities)) && (t.ended <==> EndReached(segments, capacities))
            && Concat(t.chunks) == body[..Min(|body|, Sum(capacities))]
    decreases capacities
  {
    hide Concat, SegmentPull, EndReached, SameChunks, Sum;
    AnyBytes(segments, capacities);
    AnyChunks(segments, capacities);
    if capacities == [] {
      NothingReached(segments);
    } else {
      SegmentsAreBody(segments, capacities[0]);
      var r := SegmentPull(segments, capacities[0]);
      if r.status == END {
        EndReachedNow(segments, capacities);
      } else {
        EndReachedLater(segments, capacities);
        AnyTransfer(r.rest, capacities[1..]);
      }
    }
  }

  lemma {:induction false} ConcatOne(chunk: Bytes)
    ensures Concat([chunk]) == chunk
  {
    assert [chunk][1..] == [] && chunk + [] == chunk;
  }

  lemma {:induction false} NothingReached(segments: seq<Bytes>)
    requires segments != []
    ensures !EndReached(segments, [])
  {
  }

  /** If every call has room, an empty buffer at the end costs at most one call more. */
  lemma {:induction false} AtMostOneLate(segments: seq<Bytes>, capacities: seq<nat>)
    requires segments != [] && forall i | 0 <= i < |capacities| :: capacities[i] > 0
    ensures var t, u := SegmentTransfer(segments, capacities), FlatTransfer(Concat(segments), capacities);
            |t.chunks| <= |u.chunks| + 1 && (t.ended ==> u.ended)
    decreases capacities
  {
    if capacities != [] {
      var c, others := capacities[0], capacities[1..];
      var r, flat := SegmentPull(segments, c), FlatPull(Concat(segments), c);
      SegmentsAreBody(segments, c);
      hide Concat, SegmentPull;
      if r.status == OK {
        AtMostOneLate(r.rest, others);
        if flat.status == END && others != [] {
          SegmentsAreBody(r.rest, others[0]);
        }
      }
    }
  }

  /** With an empty buffer at the end, the last byte comes with OK, and END with no bytes. */
  lemma {:induction false} EmptyTailEndsLate(body: Bytes)
    requires body != []
    ensures SegmentTransfer([body, []], [|body|, 1]) == Transfer([body, []], true)
    ensures FlatTransfer(body, [|body|, 1]) == Transfer([body], true)
  {
    var capacities := [|body|, 1];
    assert [body, []][1..] == [[]] && capacities[1..] == [1];
    assert SegmentPull([[]], 1) == Pulled([], [], END);
    assert SegmentTransfer([[]], [1]) == Transfer([[]], true);
    assert SegmentPull([body, []], |body|) == Pulled(body, [[]], OK);
    assert [body] + [[]] == [body, []];
    assert body[..|body|] == body && body[|body|..] == [];
    assert FlatPull(body, |body|) == Pulled(body, [], END);
  }

  // ---- The functions registered with Varnish -----------------------------------------------------------

  /** The updater's fetch entry: where the rest of the body is (priv1), and its length (priv2). */
  class FlatEntry {
    var priv1: Bytes
    var priv2: nat

    ghost predicate Valid()
      reads this
    {
      priv2 == |priv1|
    }

    constructor (body: Bytes)
      ensures Valid() && priv1 == body
    {
      priv1, priv2 := body, |body|;
    }

    method Pull(p: array<byte>, lp: nat) returns (len: nat, status: Status)
      requires Valid() && lp <= p.Length
      modifies this, p
      ensures Valid()
      ensures var r := FlatPull(old(priv1), lp);
              len == |r.chunk| && p[..] == r.chunk + old(p[..])[len..] && priv1 == r.rest && status == r.status
    {
      len := if priv2 > lp then lp else priv2;
      CopyBytes(p, 0, priv1, len);
      priv1 := priv1[len..];
      priv2 := priv2 - len;
      if priv2 != 0 {
        status := OK;
      } else {
        status := END;
      }
    }
  }

  /** memcpy of len bytes to offset off. */
  method CopyBytes(p: array<byte>, off: nat, src: Bytes, len: nat)
    requires off + len <= p.Length && len <= |src|
    modifies p
    ensures p[..] == old(p[..])[..off] + src[..len] + old(p[..])[off + len..]
  {
    for i := 0 to len
      invariant p[..] == old(p[..])[..off] + src[..i] + old(p[..])[off + i..]
    {
      p[off + i] := src[i];
    }
  }

  ghost function Onto(done: Bytes, r: Pulled<seq<Bytes>>): Pulled<seq<Bytes>> {
    r.(chunk := done + r.chunk)
  }

  /** The segments after len bytes of the first one. */
  ghost function Left(segments: seq<Bytes>, len: nat): seq<Bytes>
    requires segments != [] && len <= |segments[0]|
  {
    if len == |segments[0]| then segments[1..] else [segments[0][len..]] + segments[1..]
  }

  /** What one turn of the loop leaves to be done. */
  lemma {:induction false} PullFirst(segments: seq<Bytes>, max: nat, done: Bytes)
    requires segments != []
    ensures var len := Min(|segments[0]|, max); var done' := done + segments[0][..len];
            Onto(done, SegmentPull(segments, max)) ==
            if len == |segments[0]| && |segments| == 1 then Pulled(done', [], END)
            else if max == len then Pulled(done', Left(segments, len), OK)
            else Onto(done', SegmentPull(segments[1..], max - len))
  {
    var len := Min(|segments[0]|, max);
    assert segments[0][..|segments[0]|] == segments[0];
    if |segments| > 1 && len == |segments[0]| && max != len {
      var next := SegmentPull(segments[1..], max - len);
      assert done + (segments[0] + next.chunk) == (done + segments[0]) + next.chunk;
    }
  }

  lemma {:induction false} AppendToPrefix(done: Bytes, was: Bytes, more: Bytes)
    requires |done| + |more| <= |was|
    ensures var p := done + was[|done|..];
            p[..|done|] + more + p[|done| + |more|..] == (done + more) + was[|done| + |more|..]
  {
  }

  /** now with piece at offset off. */
  ghost function Spliced(now: Bytes, off: nat, piece: Bytes): Bytes
    requires off + |piece| <= |now|
  {
    now[..off] + piece + now[off + |piece|..]
  }

  /** The loop has handed over done, which now stands before what was in the buffer. */
  ghost predicate Underway(
      all: Pulled<seq<Bytes>>, segments: seq<Bytes>, max: nat, done: Bytes, was: Bytes, now: Bytes)
  {
    && segments != [] && |done| + max <= |was| && now == done + was[|done|..]
    && all == Onto(done, SegmentPull(segments, max))
  }

  lemma {:induction false} PullStart(segments: seq<Bytes>, max: nat, was: Bytes)
    requires segments != [] && max <= |was|
    ensures Underway(SegmentPull(segments, max), segments, max, [], was, was)
  {
    hide SegmentPull;
    assert [] + SegmentPull(segments, max).chunk == SegmentPull(segments, max).chunk;
  }

  /** One turn of the loop: it is the last, or the next segment is the first. */
  lemma {:induction false} PullTurn(
      all: Pulled<seq<Bytes>>, segments: seq<Bytes>, max: nat, done: Bytes, was: Bytes, now: Bytes, next: Bytes)
    requires segments != [] && Underway(all, segments, max, done, was, now)
    requires var len := Min(|segments[0]|, max);
             |done| + len <= |now| && next == Spliced(now, |done|, segments[0][..len])
    ensures var len := Min(|segments[0]|, max); var done' := done + segments[0][..len];
            && |done'| <= |was| && next == done' + was[|done'|..]
            && if len == |segments[0]| && |segments| == 1 then all == Pulled(done', [], END)
               else if max == len then
                 all == Pulled(done', Left(segments, len), OK)
               else Underway(all, segments[1..], max - len, done', was, next)
  {
    hide SegmentPull, Onto;
    AppendToPrefix(done, was, segments[0][..Min(|segments[0]|, max)]);
    PullFirst(segments, max, done);
  }

  /** The backend's fetch entry: the buffers of the result (priv1), and the index of the current one (priv2). */
  class SegmentEntry {
    const contentLength: nat
    var buffers: seq<Bytes>
    var priv2: nat

    ghost predicate Valid()
      reads this
    {
      priv2 <= |buffers|
    }

    ghost function Segments(): seq<Bytes>
      requires Valid()
      reads this
    {
      buffers[priv2..]
    }

    constructor (contentLength: nat, buffers: seq<Bytes>)
      ensures Valid() && Segments() == buffers && this.contentLength == contentLength
    {
      this.contentLength, this.buffers, this.priv2 := contentLength, buffers, 0;
    }

    /** As much of the current buffer as fits is copied, and is taken off that buffer. */
    method HandOver(p: array<byte>, off: nat, max: nat) returns (len: nat)
      requires Valid() && Segments() != [] && off + max <= p.Length
      modifies this`buffers, p
      ensures Valid() && |buffers| == old(|buffers|)
      ensures var s := old(Segments());
              && len == Min(|s[0]|, max) && buffers[priv2] == s[0][len..] && buffers[priv2 + 1..] == s[1..]
              && Segments() == [s[0][len..]] + s[1..]
      ensures p[..] == Spliced(old(p[..]), off, old(Segments())[0][..len])
    {
      var current := buffers[priv2];
      len := if |current| > max then max else |current|;
      CopyBytes(p, off, current, len);
      buffers := buffers[priv2 := current[len..]];
    }

    /** A body of length zero ends at once; else the end has not been reported yet. */
    method Pull(p: array<byte>, lp: nat) returns (written: nat, status: Status)
      requires Valid() && lp <= p.Length && (contentLength == 0 || Segments() != [])
      modifies this, p
      ensures Valid() && written <= lp
      ensures contentLength == 0 ==>
                written == 0 && status == END && p[..] == old(p[..]) && Segments() == old(Segments())
      ensures contentLength != 0 ==>
                var r := SegmentPull(old(Segments()), lp);
                && written == |r.chunk| && p[..] == r.chunk + old(p[..])[written..]
                && Segments() == r.rest && status == r.status
    {
      if contentLength == 0 {
        return 0, END;
      }
      ghost var all, was, done := SegmentPull(Segments(), lp), p[..], [];
      PullStart(Segments(), lp, was);
      hide SegmentPull, Underway, Spliced;
      var max: nat := lp;
      written := 0;
      while true
        invariant Valid() && Segments() != [] && written + max == lp && written == |done|
        invariant Underway(all, Segments(), max, done, was, p[..])
        decreases |buffers| - priv2, max
      {
        ghost var segments, now := Segments(), p[..];
        var len := HandOver(p, written, max);
        PullTurn(all, segments, max, done, was, now, p[..]);
        done := done + segments[0][..len];
        written := written + len;
        if |buffers[priv2]| == 0 {
          priv2 := priv2 + 1;
          if priv2 == |buffers| {
            status := END;
            return;
          }
        }
        max := max - len;
        if max == 0 {
          status := OK;
          return;
        }
      }
    }
  }
}
