/**
  Reading an HTTP CONNECT head from a stream that arrives in packets. A read returns 1 to 1024 bytes;
  `chunks` are the reads a client's stream would give, and the end of the list is end of stream.
 */
module HttpHead {
  import opened Bytes

  const MAX_HEAD_BYTES := 8192
  const READ_CHUNK := 1024

  const TERMINATOR: Octets := [13, 10, 13, 10]

  datatype Position = At(index: nat) | Nowhere

  datatype ReadResult =
    | Head(head: Octets, pending: Octets, used: nat)
    | HeadTooLarge
    | ClosedEarly

  // ----- finding the terminator ----------------------------------------------------------------

  predicate TerminatorAt(s: Octets, i: nat) { i + 4 <= |s| && s[i..i + 4] == TERMINATOR }

  function FindFrom(s: Octets, i: nat): (p: Position)
    requires i <= |s|
    ensures p.At? ==> i <= p.index && TerminatorAt(s, p.index) && forall j :: i <= j < p.index ==> !TerminatorAt(s, j)
    ensures p.Nowhere? ==> forall j :: i <= j ==> !TerminatorAt(s, j)
    decreases |s| - i
  {
    if i + 4 > |s| then Nowhere else if s[i..i + 4] == TERMINATOR then At(i) else FindFrom(s, i + 1)
  }

  /** The first CRLFCRLF, or none. */
  function FindTerminator(s: Octets): (p: Position)
    ensures p.At? ==> TerminatorAt(s, p.index) && forall j :: 0 <= j < p.index ==> !TerminatorAt(s, j)
    ensures p.Nowhere? ==> forall j :: 0 <= j ==> !TerminatorAt(s, j)
  {
    FindFrom(s, 0)
  }

  method FindTerminatorIn(s: Octets) returns (p: Position)
    ensures p == FindTerminator(s)
  {
    var i := 0;
    while i + 4 <= |s|
      invariant 0 <= i <= |s|
      invariant FindFrom(s, 0) == FindFrom(s, i)
    {
      if s[i..i + 4] == TERMINATOR {
        return At(i);
      }
      i := i + 1;
    }
    p := Nowhere;
  }

  /** A terminator complete in a prefix is the first one of the whole; an absent one can only end later. */
  lemma FindInPrefix(s: Octets, more: Octets)
    ensures FindTerminator(s).At? ==> FindTerminator(s + more) == FindTerminator(s)
    ensures FindTerminator(s).Nowhere? && FindTerminator(s + more).At? ==> FindTerminator(s + more).index + 4 > |s|
  {
    var whole := s + more;
    forall j: nat | j + 4 <= |s| ensures TerminatorAt(whole, j) == TerminatorAt(s, j) {
      assert whole[j..j + 4] == s[j..j + 4];
    }
  }

  // ----- the read loop -------------------------------------------------------------------------

  function ReadFrom(buf: Octets, chunks: seq<Octets>, i: nat): ReadResult
    requires i <= |chunks|
    decreases |chunks| - i
  {
    var end := FindTerminator(buf);
    if end.At? then Head(buf[..end.index], buf[end.index + 4..], i)
    else if |buf| >= MAX_HEAD_BYTES then HeadTooLarge
    else if i == |chunks| then ClosedEarly
    else ReadFrom(buf + chunks[i], chunks, i + 1)
  }

  method ReadHead(chunks: seq<Octets>) returns (r: ReadResult)
    ensures r == ReadFrom([], chunks, 0)
  {
    var buf: Octets := [];
    var i := 0;
    while true
      invariant 0 <= i <= |chunks|
      invariant ReadFrom(buf, chunks, i) == ReadFrom([], chunks, 0)
      decreases |chunks| - i
    {
      var end := FindTerminatorIn(buf);
      if end.At? {
        return Head(buf[..end.index], buf[end.index + 4..], i);
      }
      if |buf| >= MAX_HEAD_BYTES {
        return HeadTooLarge;
      }
      if i == |chunks| {
        return ClosedEarly;
      }
      buf := buf + chunks[i];
      i := i + 1;
    }
  }

  /** How much of the stream had arrived after the first `k` reads. */
  function Arrived(chunks: seq<Octets>, k: nat): nat
    requires k <= |chunks|
  {
    |Concat(chunks[..k])|
  }

  ghost predicate Readable(chunks: seq<Octets>) { ReadsOf(chunks, READ_CHUNK) }

  /** What a returned head is: cut at the first terminator, from exactly the bytes of the reads used. */
  ghost predicate ExactHead(chunks: seq<Octets>, r: ReadResult) {
    && r.Head? && r.used <= |chunks|
    && r.head + TERMINATOR + r.pending == Concat(chunks[..r.used])
    && FindTerminator(Concat(chunks)) == At(|r.head|)
    && |r.head| + 4 + |r.pending| <= MAX_HEAD_BYTES - 1 + READ_CHUNK
  }

  /** The first `n` reads all left the buffer below the limit. */
  ghost predicate BelowLimit(chunks: seq<Octets>, n: nat) {
    forall j :: 0 <= j < n && j <= |chunks| ==> Arrived(chunks, j) < MAX_HEAD_BYTES
  }

  /** Some read filled the buffer to the limit before byte `end` had arrived. */
  ghost predicate FilledFirst(chunks: seq<Octets>, end: nat) {
    exists j :: 0 <= j <= |chunks| && MAX_HEAD_BYTES <= Arrived(chunks, j) < end
  }

  lemma FoundHere(chunks: seq<Octets>, i: nat)
    requires i <= |chunks| && Arrived(chunks, i) < MAX_HEAD_BYTES + READ_CHUNK
    requires FindTerminator(Concat(chunks[..i])).At?
    ensures ExactHead(chunks, ReadFrom(Concat(chunks[..i]), chunks, i))
  {
    hide Concat;
    var buf := Concat(chunks[..i]);
    var end := FindTerminator(buf).index;
    ConcatSplit(chunks, i);
    FindInPrefix(buf, Concat(chunks[i..]));
    assert buf == buf[..end] + buf[end..end + 4] + buf[end + 4..];
  }

  lemma NotFoundHere(chunks: seq<Octets>, i: nat)
    requires i <= |chunks| && FindTerminator(Concat(chunks[..i])).Nowhere?
    ensures FindTerminator(Concat(chunks)).At? ==> FindTerminator(Concat(chunks)).index + 4 > Arrived(chunks, i)
    ensures i == |chunks| ==> FindTerminator(Concat(chunks)).Nowhere?
  {
    hide Concat;
    ConcatSplit(chunks, i);
    FindInPrefix(Concat(chunks[..i]), Concat(chunks[i..]));
    assert chunks[..|chunks|] == chunks;
  }

  /** The loop's whole meaning, from any point it can reach. */
  lemma {:induction false} ReadFromMeaning(chunks: seq<Octets>, i: nat)
    requires i <= |chunks| && Readable(chunks) && BelowLimit(chunks, i)
    requires Arrived(chunks, i) < MAX_HEAD_BYTES + READ_CHUNK
    ensures var r := ReadFrom(Concat(chunks[..i]), chunks, i);
            && (r.Head? ==> ExactHead(chunks, r) && BelowLimit(chunks, r.used))
            && (!r.Head? && FindTerminator(Concat(chunks)).At? ==>
                  FilledFirst(chunks, FindTerminator(Concat(chunks)).index + 4))
    decreases |chunks| - i
  {
    hide Concat, FindTerminator, ExactHead;
    if FindTerminator(Concat(chunks[..i])).At? {
      FoundHere(chunks, i);
    } else {
      NotFoundHere(chunks, i);
      if Arrived(chunks, i) < MAX_HEAD_BYTES && i < |chunks| {
        assert chunks[i] in chunks;
        ConcatSnoc(chunks, i);
        ReadFromMeaning(chunks, i + 1);
      }
    }
  }

  /**
    Every head returned ends at the stream's first CRLFCRLF, and head, terminator and pending are
    exactly the bytes read so far, which never exceed 8191 + 1024.
   */
  lemma HeadIsExact(chunks: seq<Octets>)
    requires Readable(chunks)
    ensures var r := ReadFrom([], chunks, 0);
            r.Head? ==> ExactHead(chunks, r)
  {
    ReadFromMeaning(chunks, 0);
  }

  /** Two packetisations of one stream never yield two different heads. */
  lemma HeadIsBoundaryIndependent(a: seq<Octets>, b: seq<Octets>)
    requires Readable(a) && Readable(b) && Concat(a) == Concat(b)
    ensures var r, s := ReadFrom([], a, 0), ReadFrom([], b, 0);
            r.Head? && s.Head? ==> r.head == s.head
  {
    HeadIsExact(a);
    HeadIsExact(b);
    var r, s := ReadFrom([], a, 0), ReadFrom([], b, 0);
    if r.Head? && s.Head? {
      ConcatSplit(a, r.used);
      ConcatSplit(b, s.used);
      assert r.head == Concat(a)[..|r.head|] && s.head == Concat(b)[..|s.head|];
    }
  }

  /** Accepted exactly when no read fills the buffer to 8192 bytes before the first terminator is complete. */
  lemma AcceptedIff(chunks: seq<Octets>)
    requires Readable(chunks)
    ensures var first := FindTerminator(Concat(chunks));
            ReadFrom([], chunks, 0).Head? <==> first.At? && !FilledFirst(chunks, first.index + 4)
  {
    assert Concat(chunks[..0]) == [];
    hide FindTerminator, Concat, ReadFrom;
    ReadFromMeaning(chunks, 0);
    var r := ReadFrom([], chunks, 0);
    if r.Head? {
      forall j | 0 <= j <= |chunks| && MAX_HEAD_BYTES <= Arrived(chunks, j) ensures Arrived(chunks, j) >= |r.head| + 4 {
        if j >= r.used {
          ArrivedGrows(chunks, r.used, j);
        }
      }
    }
  }

  /** A terminator complete within 8192 bytes is always accepted; one complete after 8191 + 1024 never is. */
  lemma AcceptedWithinLimit(chunks: seq<Octets>)
    requires Readable(chunks) && FindTerminator(Concat(chunks)).At?
    ensures var end := FindTerminator(Concat(chunks)).index + 4;
            && (end <= MAX_HEAD_BYTES ==> ReadFrom([], chunks, 0).Head?)
            && (end > MAX_HEAD_BYTES - 1 + READ_CHUNK ==> !ReadFrom([], chunks, 0).Head?)
  {
    AcceptedIff(chunks);
    HeadIsExact(chunks);
  }

  lemma {:induction false} ArrivedGrows(chunks: seq<Octets>, i: nat, j: nat)
    requires i <= j <= |chunks|
    ensures Arrived(chunks, i) <= Arrived(chunks, j)
    decreases j - i
  {
    if i < j {
      ConcatSnoc(chunks, j - 1);
      ArrivedGrows(chunks, i, j - 1);
    }
  }

  // ----- between the limits, the packets decide ------------------------------------------------

  lemma {:induction false} CutArrived(s: Octets, k: nat)
    requires k * READ_CHUNK <= |s|
    ensures k <= |Cut(s, READ_CHUNK)| && Arrived(Cut(s, READ_CHUNK), k) == k * READ_CHUNK
  {
    if k > 0 {
      if |s| <= READ_CHUNK {
        assert k == 1 && Cut(s, READ_CHUNK) == [s] && Cut(s, READ_CHUNK)[..1] == [s]
            && Concat([s]) == s + Concat([s][1..]);
      } else {
        CutArrived(s[READ_CHUNK..], k - 1);
        assert Cut(s, READ_CHUNK)[..k][0] == s[..READ_CHUNK] && Cut(s, READ_CHUNK)[..k][1..] ==
            Cut(s[READ_CHUNK..], READ_CHUNK)[..k - 1];
      }
    }
  }

  /** Read to one byte below the limit, then everything up to the terminator at once. */
  function LuckyReads(s: Octets, end: nat): seq<Octets>
    requires MAX_HEAD_BYTES - 1 <= end <= |s|
  {
    Cut(s[..MAX_HEAD_BYTES - 1], READ_CHUNK) + ([s[MAX_HEAD_BYTES - 1..end]] + Cut(s[end..], READ_CHUNK))
  }

  /** Around a chunk `m`, no read boundary falls strictly inside it. */
  lemma NoBoundaryInside(a: seq<Octets>, m: Octets, z: seq<Octets>)
    ensures var c := a + ([m] + z);
            && Concat(c) == Concat(a) + m + Concat(z)
            && forall j :: 0 <= j <= |c| ==> Arrived(c, j) <= |Concat(a)| || Arrived(c, j) >= |Concat(a)| + |m|
  {
    var c := a + ([m] + z);
    ConcatAppend(a, [m] + z);
    assert ([m] + z)[1..] == z;
    assert Concat([m] + z) == m + Concat(z);
    hide Concat;
    assert c[..|a|] == a && c[|a|] == m;
    ConcatSnoc(c, |a|);
    forall j | 0 <= j <= |c| ensures Arrived(c, j) <= |Concat(a)| || Arrived(c, j) >= |Concat(a)| + |m| {
      if j <= |a| {
        ArrivedGrows(c, j, |a|);
      } else {
        ArrivedGrows(c, |a| + 1, j);
      }
    }
  }

  lemma LuckyArrivals(s: Octets, end: nat)
    requires MAX_HEAD_BYTES <= end <= |s| && end <= MAX_HEAD_BYTES - 1 + READ_CHUNK
    ensures var c := LuckyReads(s, end);
            Readable(c) && Concat(c) == s && !FilledFirst(c, end)
  {
    hide Cut, Concat, Arrived;
    var low := s[..MAX_HEAD_BYTES - 1];
    var m := s[MAX_HEAD_BYTES - 1..end];
    CutConcat(low, READ_CHUNK);
    CutConcat(s[end..], READ_CHUNK);
    NoBoundaryInside(Cut(low, READ_CHUNK), m, Cut(s[end..], READ_CHUNK));
    assert s == low + m + s[end..];
  }

  /**
    For every stream whose terminator completes between the two limits, one packetisation is refused and
    another accepted.
   */
  lemma PacketsDecide(s: Octets)
    requires FindTerminator(s).At?
    requires MAX_HEAD_BYTES < FindTerminator(s).index + 4 <= MAX_HEAD_BYTES - 1 + READ_CHUNK
    ensures var end := FindTerminator(s).index + 4;
            && Readable(Cut(s, READ_CHUNK)) && Concat(Cut(s, READ_CHUNK)) == s
               && !ReadFrom([], Cut(s, READ_CHUNK), 0).Head?
            && Readable(LuckyReads(s, end)) && Concat(LuckyReads(s, end)) == s
            && ReadFrom([], LuckyReads(s, end), 0).Head?
  {
    hide FindTerminator, Concat, ReadFrom, LuckyReads, Cut;
    var end := FindTerminator(s).index + 4;
    CutConcat(s, READ_CHUNK);
    CutArrived(s, 8);
    AcceptedIff(Cut(s, READ_CHUNK));
    LuckyArrivals(s, end);
    AcceptedIff(LuckyReads(s, end));
  }

  // ----- serving -------------------------------------------------------------------------------

  /** `serve` after the dial: pipelined bytes first, then everything the client still sends. */
  method Relay(found: ReadResult, chunks: seq<Octets>) returns (upstream: Octets, up: nat)
    requires found.Head? && found.used <= |chunks|
    ensures upstream == found.pending + Concat(chunks[found.used..])
    ensures up == |upstream|
  {
    upstream := [];
    if found.pending != [] {
      upstream := upstream + found.pending;
    }
    var copied := 0;
    var i := found.used;
    assert chunks[found.used..][..0] == [];
    while i < |chunks|
      invariant found.used <= i <= |chunks|
      invariant upstream == found.pending + Concat(chunks[found.used..][..i - found.used])
      invariant copied == |Concat(chunks[found.used..][..i - found.used])|
    {
      ConcatSnoc(chunks[found.used..], i - found.used);
      upstream := upstream + chunks[i];
      copied := copied + |chunks[i]|;
      i := i + 1;
    }
    assert chunks[found.used..][..i - found.used] == chunks[found.used..];
    up := copied + |found.pending|;
  }

  /**
    What reaches the destination is the client's stream after the head, whole and in order, however it was
    packetised.
   */
  lemma NothingLostAfterTheHead(chunks: seq<Octets>)
    requires Readable(chunks)
    ensures var r := ReadFrom([], chunks, 0);
            r.Head? ==>
              && r.used <= |chunks|
              && r.head + TERMINATOR + (r.pending + Concat(chunks[r.used..])) == Concat(chunks)
  {
    hide Concat, FindTerminator, ReadFrom;
    HeadIsExact(chunks);
    var r := ReadFrom([], chunks, 0);
    if r.Head? {
      ConcatSplit(chunks, r.used);
      var rest := Concat(chunks[r.used..]);
      assert r.head + TERMINATOR + (r.pending + rest) == (r.head + TERMINATOR + r.pending) + rest;
    }
  }
}
