/** HTTP heads that are refused before anyone is authorized: which error each kind of stream and head gets. */
module HttpRefusals {
  import opened Wrappers
  import opened Bytes
  import opened HttpConnect
  import opened HttpHead
  import opened HttpRequest
  import opened HttpFront

  // ----- no head in the stream -----------------------------------------------------------------

  lemma {:induction false} RefusedHow(chunks: seq<Octets>, i: nat)
    requires i <= |chunks| && BelowLimit(chunks, i)
    ensures var r := ReadFrom(Concat(chunks[..i]), chunks, i);
            && (r.ClosedEarly? ==> Arrived(chunks, |chunks|) < 8192 && FindTerminator(Concat(chunks)).Nowhere?)
            && (r.HeadTooLarge? ==> Arrived(chunks, |chunks|) >= 8192)
    decreases |chunks| - i
  {
    hide Concat, FindTerminator;
    assert chunks[..|chunks|] == chunks;
    if FindTerminator(Concat(chunks[..i])).Nowhere? {
      if Arrived(chunks, i) >= MAX_HEAD_BYTES {
        ArrivedGrows(chunks, i, |chunks|);
      } else if i < |chunks| {
        ConcatSnoc(chunks, i);
        RefusedHow(chunks, i + 1);
      }
    }
  }

  /**
    Without a head there are two refusals, decided by the length of the stream alone: one of fewer than 8192 bytes
    ended too early and is malformed, any other is too large. Nobody is asked for credentials, or charged.
   */
  lemma NoHeadVerdict(env: Env, chunks: seq<Octets>, capacity: bool)
    requires !ReadFrom([], chunks, 0).Head?
    ensures Negotiate(env, chunks, capacity) ==
            Err(if |Concat(chunks)| < 8192 then Malformed else HttpError.HeadTooLarge)
  {
    assert Concat(chunks[..0]) == [] && chunks[..|chunks|] == chunks;
    hide Concat, ReadFrom;
    RefusedHow(chunks, 0);
  }

  // ----- no request in the head ----------------------------------------------------------------

  /** Header lines are refused for their form, or for being more than 64. */
  lemma {:induction false} HeadersRefusedHow(lines: seq<Octets>, acc: seq<Header>)
    ensures var r := ParseHeaders(lines, acc); r.Err? ==> r.error == Malformed || r.error == TooManyHeaders
    ensures ParseHeaders(lines, acc) == Err(TooManyHeaders) ==> |acc| + |lines| > 64
    decreases |lines|
  {
    if lines != [] && ParseHeader(lines[0]).Ok? {
      HeadersRefusedHow(lines[1..], acc + [ParseHeader(lines[0]).value]);
    }
  }

  /** A request line over 1024 bytes is too large whatever it says; no other refusal of a head is. */
  lemma LongLineIff(utf8: Octets -> bool, head: Octets)
    ensures ParseHead(utf8, head) == Err(HttpError.HeadTooLarge) <==> utf8(head) && |SplitCrlf(head)[0]| > 1024
  {
    HeadersRefusedHow(SplitCrlf(head)[1..], []);
    hide SplitCrlf, ParseHeaders, SplitOn;
  }
}
