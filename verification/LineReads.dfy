/**
  Which streams the line splitter accepts, over everything 4096-byte reads can return: always, never, or
  depending on where the reads happen to end.
 */
module LineReads {
  import opened Bytes
  import opened Codec

  /** A way the stream `s` may arrive. */
  ghost predicate Arrives(chunks: seq<Octets>, s: Octets) { ReadsOf(chunks, READ_CHUNK) && Concat(chunks) == s }

  predicate Accepted(chunks: seq<Octets>) { PushAll(LineSplitter([]), chunks).Split? }

  ghost predicate LinesWithin(s: Octets, limit: nat) {
    (forall l :: l in Lines(s) ==> |l| <= limit) && |Tail(s)| <= MAX_INBOUND_LINE_BYTES
  }

  lemma AcceptedIffTailsFit(chunks: seq<Octets>)
    ensures Accepted(chunks) <==>
            forall k :: 0 <= k <= |chunks| ==> |Tail(Concat(chunks[..k]))| <= MAX_INBOUND_LINE_BYTES
  {
    PushAllFailsIff(LineSplitter([]), chunks);
    hide PushAll, Tail, Concat;
    forall k | 0 <= k <= |chunks| ensures [] + Concat(chunks[..k]) == Concat(chunks[..k]) {}
  }

  // ----- always --------------------------------------------------------------------------------

  /** What is unterminated after part of a stream is no longer than the line it will be, or the final tail. */
  lemma TailOfPrefix(a: Octets, b: Octets)
    ensures |Tail(a)| <= |Tail(a + b)| || exists l :: l in Lines(a + b) && |Tail(a)| <= |l|
  {
    var t := Tail(a) + b;
    SplitAcross(a, b);
    JoinOfSplit(a);
    var i := FirstIndex(t, LF);
    if i == |t| {
      assert Tail(t) == t;
    } else {
      assert forall k :: 0 <= k < |Tail(a)| ==> t[k] == Tail(a)[k];
      assert t[..i] == Lines(t)[0];
      assert t[..i] in Lines(a + b);
    }
  }

  lemma FittingIsAccepted(s: Octets, chunks: seq<Octets>)
    requires LinesWithin(s, MAX_INBOUND_LINE_BYTES) && Concat(chunks) == s
    ensures Accepted(chunks)
  {
    AcceptedIffTailsFit(chunks);
    forall k | 0 <= k <= |chunks| ensures |Tail(Concat(chunks[..k]))| <= MAX_INBOUND_LINE_BYTES {
      ConcatSplit(chunks, k);
      TailOfPrefix(Concat(chunks[..k]), Concat(chunks[k..]));
    }
  }

  /** Reads that end right before the LF of line `i`. */
  lemma LongLineCanBeRefused(s: Octets, i: nat) returns (chunks: seq<Octets>)
    requires i < |Lines(s)| && |Lines(s)[i]| > MAX_INBOUND_LINE_BYTES
    ensures Arrives(chunks, s) && !Accepted(chunks)
  {
    var lines, tail := Lines(s), Tail(s);
    JoinOfSplit(s);
    var before, l, rest := lines[..i], lines[i], [LF] + Join(lines[i + 1..], tail);
    assert lines == before + lines[i..] && lines[i..][1..] == lines[i + 1..];
    JoinConcat(before, lines[i..], tail);
    assert Join(lines[i..], tail) == l + [LF] + Join(lines[i + 1..], tail) == l + rest;
    JoinExtend(before, l, rest);
    var a := Join(before, l);
    assert Framed(before, l);
    SplitOfJoin(before, l);
    chunks := RefusedAt(a, rest);
  }

  lemma RefusedAt(a: Octets, b: Octets) returns (chunks: seq<Octets>)
    requires |Tail(a)| > MAX_INBOUND_LINE_BYTES
    ensures Arrives(chunks, a + b) && !Accepted(chunks)
  {
    hide Tail, Concat, Accepted, Cut;
    var x, y := Cut(a, READ_CHUNK), Cut(b, READ_CHUNK);
    CutConcat(a, READ_CHUNK);
    CutConcat(b, READ_CHUNK);
    ConcatAppend(x, y);
    chunks := x + y;
    assert chunks[..|x|] == x;
    AcceptedIffTailsFit(chunks);
  }

  /**
    A stream is accepted however it arrives exactly when none of its lines, and not its unterminated tail,
    is longer than 8192 bytes.
   */
  lemma AlwaysAcceptedIff(s: Octets)
    ensures (forall chunks :: Arrives(chunks, s) ==> Accepted(chunks)) <==> LinesWithin(s, MAX_INBOUND_LINE_BYTES)
  {
    hide Accepted;
    if LinesWithin(s, MAX_INBOUND_LINE_BYTES) {
      forall chunks | Arrives(chunks, s) ensures Accepted(chunks) {
        FittingIsAccepted(s, chunks);
      }
    } else if |Tail(s)| > MAX_INBOUND_LINE_BYTES {
      var chunks := RefusedAt(s, []);
      assert s + [] == s;
    } else {
      var i: nat :| i < |Lines(s)| && |Lines(s)[i]| > MAX_INBOUND_LINE_BYTES;
      var chunks := LongLineCanBeRefused(s, i);
    }
  }

  // ----- never ---------------------------------------------------------------------------------

  const LONGEST := MAX_INBOUND_LINE_BYTES + READ_CHUNK - 1

  lemma {:induction false} AcceptedLinesFit(s: LineSplitter, chunks: seq<Octets>)
    requires LF !in s.buffered && |s.buffered| <= MAX_INBOUND_LINE_BYTES && ReadsOf(chunks, READ_CHUNK)
    requires PushAll(s, chunks).Split?
    ensures forall l :: l in Lines(s.buffered + Concat(chunks)) ==> |l| <= LONGEST
    decreases |chunks|
  {
    hide Lines, Tail, Decoded;
    if chunks == [] {
      assert s.buffered + Concat(chunks) == s.buffered;
      NoLineYet(s.buffered);
    } else {
      var combined, rest := s.buffered + chunks[0], Concat(chunks[1..]);
      assert chunks[0] in chunks;
      assert s.buffered + Concat(chunks) == combined + rest;
      JoinOfSplit(combined);
      SplitAcross(combined, rest);
      LineLengthBound(s.buffered, chunks[0]);
      AcceptedLinesFit(Push(s, chunks[0]).next, chunks[1..]);
    }
  }

  /** One line, read so that at most 8192 bytes are waiting when its LF arrives. */
  function LineReads(l: Octets): seq<Octets>
    requires |l| <= LONGEST
  {
    if |l| <= MAX_INBOUND_LINE_BYTES then Cut(l + [LF], READ_CHUNK)
    else [l[..READ_CHUNK], l[READ_CHUNK..MAX_INBOUND_LINE_BYTES], l[MAX_INBOUND_LINE_BYTES..] + [LF]]
  }

  function LuckyReads(lines: seq<Octets>, tail: Octets): seq<Octets>
    requires forall l :: l in lines ==> |l| <= LONGEST
  {
    if lines == [] then Cut(tail, READ_CHUNK) else LineReads(lines[0]) + LuckyReads(lines[1..], tail)
  }

  lemma OneLine(l: Octets)
    requires LF !in l
    ensures Lines(l + [LF]) == [l] && Tail(l + [LF]) == []
  {
    SplitOfJoin([l], []);
    assert Join([l], []) == l + [LF] + Join([l][1..], []);
  }

  lemma LineReadsWork(l: Octets)
    requires LF !in l && |l| <= LONGEST
    ensures Arrives(LineReads(l), l + [LF])
    ensures var r := PushAll(LineSplitter([]), LineReads(l)); r.Split? && r.next == LineSplitter([])
  {
    var chunks := LineReads(l);
    OneLine(l);
    if |l| <= MAX_INBOUND_LINE_BYTES {
      CutConcat(l + [LF], READ_CHUNK);
      FittingIsAccepted(l + [LF], chunks);
    } else {
      LongLineReads(l);
    }
    ChunkInvariant(LineSplitter([]), chunks);
    assert [] + Concat(chunks) == l + [LF];
  }

  lemma ThreeChunks(a: Octets, b: Octets, c: Octets)
    ensures var chunks := [a, b, c];
            Concat(chunks[..0]) == [] && Concat(chunks[..1]) == a && Concat(chunks[..2]) == a + b
                && Concat(chunks) == a + b + c
  {
    var chunks := [a, b, c];
    ConcatSnoc(chunks, 0);
    ConcatSnoc(chunks, 1);
    ConcatSnoc(chunks, 2);
    assert chunks[..3] == chunks;
  }

  lemma LongLineReads(l: Octets)
    requires LF !in l && MAX_INBOUND_LINE_BYTES < |l| <= LONGEST
    ensures Arrives(LineReads(l), l + [LF]) && Accepted(LineReads(l))
  {
    hide PushAll, Concat, Accepted, Lines, Tail;
    var chunks := LineReads(l);
    var one, two := l[..READ_CHUNK], l[..MAX_INBOUND_LINE_BYTES];
    ThreeChunks(chunks[0], chunks[1], chunks[2]);
    assert chunks[0] + chunks[1] == two && two + chunks[2] == l + [LF];
    assert chunks == [chunks[0], chunks[1], chunks[2]] && chunks[..3] == chunks;
    OneLine(l);
    NoLineYet(one);
    NoLineYet(two);
    NoLineYet([]);
    AcceptedIffTailsFit(chunks);
  }

  lemma {:induction false} PushAllAppend(s: LineSplitter, a: seq<Octets>, b: seq<Octets>)
    requires PushAll(s, a).Split?
    ensures PushAll(s, a + b).Split? <==> PushAll(PushAll(s, a).next, b).Split?
    decreases |a|
  {
    hide Push;
    if a == [] {
      assert a + b == b;
    } else {
      assert (a + b)[0] == a[0] && (a + b)[1..] == a[1..] + b;
      PushAllAppend(Push(s, a[0]).next, a[1..], b);
    }
  }

  lemma {:induction false} LuckyReadsWork(lines: seq<Octets>, tail: Octets)
    requires Framed(lines, tail) && (forall l :: l in lines ==> |l| <= LONGEST) && |tail| <= MAX_INBOUND_LINE_BYTES
    ensures Arrives(LuckyReads(lines, tail), Join(lines, tail)) && Accepted(LuckyReads(lines, tail))
    decreases |lines|
  {
    hide PushAll, LineReads;
    if lines == [] {
      NoLineYet(tail);
      CutConcat(tail, READ_CHUNK);
      FittingIsAccepted(tail, Cut(tail, READ_CHUNK));
    } else {
      var first, rest := LineReads(lines[0]), LuckyReads(lines[1..], tail);
      LineReadsWork(lines[0]);
      LuckyReadsWork(lines[1..], tail);
      ConcatAppend(first, rest);
      PushAllAppend(LineSplitter([]), first, rest);
    }
  }

  /**
    A stream is refused however it arrives exactly when one of its lines is longer than 8192 + 4095 bytes, or
    its unterminated tail is longer than 8192.
   */
  lemma NeverAcceptedIff(s: Octets)
    ensures (forall chunks :: Arrives(chunks, s) ==> !Accepted(chunks)) <==> !LinesWithin(s, LONGEST)
  {
    hide Lines, Tail, PushAll;
    JoinOfSplit(s);
    forall chunks | Arrives(chunks, s) && Accepted(chunks) ensures LinesWithin(s, LONGEST) {
      assert [] + Concat(chunks) == s;
      AcceptedLinesFit(LineSplitter([]), chunks);
      ChunkInvariant(LineSplitter([]), chunks);
    }
    if LinesWithin(s, LONGEST) {
      LuckyReadsWork(Lines(s), Tail(s));
    }
  }

  /** Any stream in between meets both fates: the reads alone decide. */
  lemma SameStreamTwoFates(s: Octets) returns (lucky: seq<Octets>, unlucky: seq<Octets>)
    requires LinesWithin(s, LONGEST) && !LinesWithin(s, MAX_INBOUND_LINE_BYTES)
    ensures Arrives(lucky, s) && Accepted(lucky)
    ensures Arrives(unlucky, s) && !Accepted(unlucky)
  {
    hide LinesWithin, Arrives, Accepted;
    AlwaysAcceptedIff(s);
    NeverAcceptedIff(s);
    lucky :| Arrives(lucky, s) && Accepted(lucky);
    unlucky :| Arrives(unlucky, s) && !Accepted(unlucky);
  }
}
