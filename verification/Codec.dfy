/**
  Line framing on the management channel. A read can end anywhere, so the splitter keeps the
  unterminated tail between reads; what it emits must not depend on where the reads ended.
 */
module Codec {
  import opened Bytes

  const LF: Byte := 10
  const CR: Byte := 13
  const MAX_INBOUND_LINE_BYTES := 8192
  const READ_CHUNK := 4096

  datatype LineSplitter = LineSplitter(buffered: Octets)

  datatype Pushed = Split(next: LineSplitter, lines: seq<Octets>) | LineTooLong(bytes: nat)

  // ----- the reference split -------------------------------------------------------------------

  function Lines(s: Octets): seq<Octets>
    decreases |s|
  {
    var i := FirstIndex(s, LF);
    if i == |s| then [] else [s[..i]] + Lines(s[i + 1..])
  }

  function Tail(s: Octets): Octets
    decreases |s|
  {
    var i := FirstIndex(s, LF);
    if i == |s| then s else Tail(s[i + 1..])
  }

  function Join(lines: seq<Octets>, tail: Octets): Octets {
    if lines == [] then tail else lines[0] + [LF] + Join(lines[1..], tail)
  }

  ghost predicate Framed(lines: seq<Octets>, tail: Octets) {
    (forall l :: l in lines ==> LF !in l) && LF !in tail
  }

  /** Splitting loses and invents nothing. */
  lemma {:induction false} JoinOfSplit(s: Octets)
    ensures Join(Lines(s), Tail(s)) == s && Framed(Lines(s), Tail(s))
    decreases |s|
  {
    var i := FirstIndex(s, LF);
    if i < |s| {
      JoinOfSplit(s[i + 1..]);
      var rest := Lines(s[i + 1..]);
      assert ([s[..i]] + rest)[1..] == rest;
      assert s == s[..i] + [LF] + s[i + 1..];
    } else {
      assert s[..i] == s;
    }
  }

  lemma NoLineYet(s: Octets)
    requires LF !in s
    ensures Lines(s) == [] && Tail(s) == s
  {
    FirstIndexNone(s, LF);
  }

  /** And it is the only way to cut the stream into LF-free pieces. */
  lemma {:induction false} SplitOfJoin(lines: seq<Octets>, tail: Octets)
    requires Framed(lines, tail)
    ensures Lines(Join(lines, tail)) == lines && Tail(Join(lines, tail)) == tail
    decreases |lines|
  {
    if lines == [] {
      FirstIndexNone(tail, LF);
    } else {
      var rest := Join(lines[1..], tail);
      var s := lines[0] + [LF] + rest;
      FirstIndexOf(lines[0], LF, rest);
      SplitOfJoin(lines[1..], tail);
      assert s[..|lines[0]|] == lines[0] && s[|lines[0]| + 1..] == rest;
    }
  }

  lemma {:induction false} JoinConcat(a: seq<Octets>, b: seq<Octets>, tail: Octets)
    ensures Join(a + b, tail) == Join(a, Join(b, tail))
    decreases |a|
  {
    if a == [] {
      assert a + b == b;
    } else {
      assert (a + b)[1..] == a[1..] + b;
      JoinConcat(a[1..], b, tail);
    }
  }

  lemma {:induction false} JoinExtend(lines: seq<Octets>, tail: Octets, more: Octets)
    ensures Join(lines, tail) + more == Join(lines, tail + more)
    decreases |lines|
  {
    if lines != [] {
      JoinExtend(lines[1..], tail, more);
      assert lines[0] + [LF] + Join(lines[1..], tail) + more == lines[0] + [LF] + (Join(lines[1..], tail) + more);
    }
  }

  /** Carrying the tail across a boundary is the same as never having had the boundary. */
  lemma SplitAcross(a: Octets, b: Octets)
    ensures Lines(a + b) == Lines(a) + Lines(Tail(a) + b)
    ensures Tail(a + b) == Tail(Tail(a) + b)
  {
    var c := Tail(a) + b;
    JoinOfSplit(a);
    JoinOfSplit(c);
    JoinExtend(Lines(a), Tail(a), b);
    JoinConcat(Lines(a), Lines(c), Tail(c));
    SplitOfJoin(Lines(a) + Lines(c), Tail(c));
  }

  // ----- the splitter --------------------------------------------------------------------------

  /** The wire is CRLF terminated; the `\r` is stripped after the cut. */
  function DecodeLine(raw: Octets): Octets {
    if raw != [] && raw[|raw| - 1] == CR then raw[..|raw| - 1] else raw
  }

  function Decoded(raw: seq<Octets>): (r: seq<Octets>) {
    seq(|raw|, i requires 0 <= i < |raw| => DecodeLine(raw[i]))
  }

  function Push(s: LineSplitter, chunk: Octets): Pushed {
    var combined := s.buffered + chunk;
    if |Tail(combined)| > MAX_INBOUND_LINE_BYTES then LineTooLong(|Tail(combined)|)
    else Split(LineSplitter(Tail(combined)), Decoded(Lines(combined)))
  }

  /** `LineSplitter::push`: cuts at each LF in turn, keeping the rest. */
  method PushChunk(s: LineSplitter, chunk: Octets) returns (r: Pushed)
    ensures r == Push(s, chunk)
  {
    var combined := s.buffered + chunk;
    var rest := combined;
    var lines := [];
    assert Lines(combined) == [] + Lines(rest);
    ghost var raw := [];
    while LF in rest
      invariant Lines(combined) == raw + Lines(rest) && Tail(combined) == Tail(rest)
      invariant lines == Decoded(raw)
      decreases |rest|
    {
      var i := FirstIndex(rest, LF);
      assert rest[..|rest|] == rest;
      raw := raw + [rest[..i]];
      lines := lines + [DecodeLine(rest[..i])];
      rest := rest[i + 1..];
    }
    FirstIndexNone(rest, LF);
    assert raw + [] == raw;
    if |rest| > MAX_INBOUND_LINE_BYTES {
      return LineTooLong(|rest|);
    }
    r := Split(LineSplitter(rest), lines);
  }

  function PushAll(s: LineSplitter, chunks: seq<Octets>): Pushed
    decreases |chunks|
  {
    if chunks == [] then Split(s, [])
    else
      var p := Push(s, chunks[0]);
      if p.LineTooLong? then p
      else
        var q := PushAll(p.next, chunks[1..]);
        if q.LineTooLong? then q else q.(lines := p.lines + q.lines)
  }

  lemma DecodedConcat(a: seq<Octets>, b: seq<Octets>)
    ensures Decoded(a + b) == Decoded(a) + Decoded(b)
  {
  }

  /**
    Chunk invariance: if no push fails, the emitted lines are the split of the whole stream, and the
    buffer is exactly its unterminated tail.
   */
  lemma {:induction false} ChunkInvariant(s: LineSplitter, chunks: seq<Octets>)
    requires LF !in s.buffered && |s.buffered| <= MAX_INBOUND_LINE_BYTES
    ensures var stream := s.buffered + Concat(chunks);
            var r := PushAll(s, chunks);
            r.Split? ==>
              && r.lines == Decoded(Lines(stream)) && r.next.buffered == Tail(stream)
              && LF !in r.next.buffered && |r.next.buffered| <= MAX_INBOUND_LINE_BYTES
    decreases |chunks|
  {
    if chunks == [] {
      assert s.buffered + Concat(chunks) == s.buffered;
      FirstIndexNone(s.buffered, LF);
    } else {
      var combined := s.buffered + chunks[0];
      JoinOfSplit(combined);
      SplitAcross(combined, Concat(chunks[1..]));
      assert s.buffered + Concat(chunks) == combined + Concat(chunks[1..]);
      DecodedConcat(Lines(combined), Lines(Tail(combined) + Concat(chunks[1..])));
      if Push(s, chunks[0]).Split? {
        ChunkInvariant(Push(s, chunks[0]).next, chunks[1..]);
      }
    }
  }

  /** Whether a stream is accepted does depend on the reads: it fails exactly when some read ends on too long a tail. */
  lemma {:induction false} PushAllFailsIff(s: LineSplitter, chunks: seq<Octets>)
    requires LF !in s.buffered && |s.buffered| <= MAX_INBOUND_LINE_BYTES
    ensures PushAll(s, chunks).LineTooLong? <==>
            exists k :: 0 <= k <= |chunks| && |Tail(s.buffered + Concat(chunks[..k]))| > MAX_INBOUND_LINE_BYTES
    decreases |chunks|
  {
    hide Lines, Tail, Decoded;
    NoLineYet(s.buffered);
    assert s.buffered + Concat(chunks[..0]) == s.buffered;
    if chunks != [] {
      var combined := s.buffered + chunks[0];
      var next := LineSplitter(Tail(combined));
      JoinOfSplit(combined);
      NoLineYet(next.buffered);
      TailsFromNext(s, chunks);
      assert next.buffered + Concat(chunks[1..][..0]) == next.buffered;
      if |next.buffered| <= MAX_INBOUND_LINE_BYTES {
        PushAllFailsIff(next, chunks[1..]);
        if k :| 0 <= k <= |chunks[1..]| && |Tail(next.buffered + Concat(chunks[1..][..k]))| > MAX_INBOUND_LINE_BYTES {
          assert |Tail(s.buffered + Concat(chunks[..k + 1]))| > MAX_INBOUND_LINE_BYTES;
        }
      } else {
        assert |Tail(s.buffered + Concat(chunks[..1]))| > MAX_INBOUND_LINE_BYTES;
      }
    }
  }

  lemma TailsFromNext(s: LineSplitter, chunks: seq<Octets>)
    requires chunks != []
    ensures var next := Tail(s.buffered + chunks[0]);
            forall k :: 0 < k <= |chunks| ==>
              Tail(s.buffered + Concat(chunks[..k])) == Tail(next + Concat(chunks[1..][..k - 1]))
  {
    hide Lines, Tail;
    var combined := s.buffered + chunks[0];
    forall k | 0 < k <= |chunks|
      ensures Tail(s.buffered + Concat(chunks[..k])) == Tail(Tail(combined) + Concat(chunks[1..][..k - 1]))
    {
      assert chunks[..k][1..] == chunks[1..][..k - 1];
      assert s.buffered + Concat(chunks[..k]) == combined + Concat(chunks[1..][..k - 1]);
      SplitAcross(combined, Concat(chunks[1..][..k - 1]));
    }
  }

  /** With 4096-byte reads no line longer than 8192 + 4095 bytes is ever emitted. */
  lemma {:induction false} LineLengthBound(buffered: Octets, chunk: Octets)
    requires LF !in buffered
    ensures forall l :: l in Lines(buffered + chunk) ==> |l| < |buffered| + |chunk|
    decreases |buffered| + |chunk|
  {
    var s := buffered + chunk;
    var i := FirstIndex(s, LF);
    if i < |s| {
      LineLengthBound([], s[i + 1..]);
      assert [] + s[i + 1..] == s[i + 1..];
    }
  }

  lemma EmittedLineBound(s: LineSplitter, chunk: Octets)
    requires LF !in s.buffered && |s.buffered| <= MAX_INBOUND_LINE_BYTES && |chunk| <= READ_CHUNK
    ensures var r := Push(s, chunk);
            r.Split? ==> forall l :: l in r.lines ==> |l| <= MAX_INBOUND_LINE_BYTES + READ_CHUNK - 1
  {
    LineLengthBound(s.buffered, chunk);
    var raw := Lines(s.buffered + chunk);
    forall i | 0 <= i < |raw| ensures |Decoded(raw)[i]| <= MAX_INBOUND_LINE_BYTES + READ_CHUNK - 1 {
      assert raw[i] in raw;
    }
  }
}
