/**
  The HTTP CONNECT front end from the client's bytes: the head is cut out of whatever packets arrive, parsed,
  authorized, and only then is its authority looked at. UTF-8 validity, base64 and textual addresses are parameters.
 */
module HttpFront {
  import opened Wrappers
  import opened Bytes
  import opened Target
  import opened HttpConnect
  import opened HttpHead
  import opened HttpRequest
  import opened HttpSpelling
  import Limiter

  type Result<T> = HttpConnect.Result<T>

  // ----- the front end -------------------------------------------------------------------------

  datatype Env = Env(auth: AuthPolicy, cfg: Config, utf8: Octets -> bool, decode: Decoder)

  /** A target, and the client's bytes that already belong to it; `used` reads were taken for them. */
  datatype Negotiated = Negotiated(target: Target, pending: Octets, used: nat)

  /** `negotiate`, from the reads of a client's stream. */
  function Negotiate(env: Env, chunks: seq<Octets>, capacity: bool): Result<Negotiated> {
    match ReadFrom([], chunks, 0)
    case HeadTooLarge => Err(HttpError.HeadTooLarge)
    case ClosedEarly => Err(Malformed)
    case Head(head, pending, used) =>
      match ParseHead(env.utf8, head)
      case Err(e) => Err(e)
      case Ok(r) =>
        match Connect(env.auth, env.cfg, Credentials(r.headers), env.decode, r.authority, capacity)
        case Err(e) => Err(e)
        case Ok(target) => Ok(Negotiated(target, pending, used))
  }

  lemma {:induction false} HeadersNameNoPair(lines: seq<Octets>, acc: seq<Header>)
    ensures ParseHeaders(lines, acc) != Err(AuthFailed)
    decreases |lines|
  {
    if lines != [] && ParseHeader(lines[0]).Ok? {
      HeadersNameNoPair(lines[1..], acc + [ParseHeader(lines[0]).value]);
    }
  }

  lemma HeadNamesNoPair(utf8: Octets -> bool, head: Octets)
    ensures ParseHead(utf8, head) != Err(AuthFailed)
  {
    HeadersNameNoPair(SplitCrlf(head)[1..], []);
    hide ParseHeaders, SplitCrlf, SplitOn;
  }

  // ----- the head is found in the stream -------------------------------------------------------

  function Encode(s: Spoken): Octets { EncodeHead(s) + TERMINATOR }

  /** A line in front of something that does not begin with a CR brings no terminator. */
  lemma NoTerminatorInLine(line: Octets, t: Octets, i: nat)
    requires NoCrlf(line) && t != [] && t[0] != CR && TerminatorAt(line + CRLF + t, i)
    ensures i >= |line| + 2 && TerminatorAt(t, i - |line| - 2)
  {
    var s := line + CRLF + t;
    var n := |line|;
    assert forall j :: 0 <= j < n ==> s[j] == line[j];
    assert s[i..i + 4] == [s[i], s[i + 1], s[i + 2], s[i + 3]];
    assert s[n] == CR && s[n + 1] == LF && s[n + 2] == t[0];
    assert i >= n + 2;
    assert t[i - n - 2..i - n + 2] == s[i..i + 4];
  }

  lemma NoTerminatorInLast(line: Octets, rest: Octets, i: nat)
    requires NoCrlf(line) && TerminatorAt(line + TERMINATOR + rest, i)
    ensures i >= |line|
  {
    var s := line + TERMINATOR + rest;
    assert forall j :: 0 <= j < |line| ==> s[j] == line[j];
    assert s[|line|] == CR;
    assert s[i..i + 4] == [s[i], s[i + 1], s[i + 2], s[i + 3]];
  }

  lemma {:induction false} TerminatorAfterLines(lines: seq<Octets>, rest: Octets, i: nat)
    requires lines != [] && forall l :: l in lines ==> NoCrlf(l) && l != [] && l[0] != CR
    requires TerminatorAt(JoinCrlf(lines) + TERMINATOR + rest, i)
    ensures i >= |JoinCrlf(lines)|
    decreases |lines|
  {
    hide TerminatorAt, NoCrlf;
    var line := lines[0];
    assert line in lines;
    if |lines| == 1 {
      NoTerminatorInLast(line, rest, i);
    } else {
      var t := JoinCrlf(lines[1..]);
      assert lines[1] in lines && t[0] == lines[1][0];
      assert line + CRLF + t + TERMINATOR + rest == line + CRLF + (t + TERMINATOR + rest);
      NoTerminatorInLine(line, t + TERMINATOR + rest, i);
      TerminatorAfterLines(lines[1..], rest, i - |line| - 2);
    }
  }

  lemma TerminatorIsFirst(s: Spoken, rest: Octets)
    requires Speakable(s)
    ensures FindTerminator(Encode(s) + rest) == At(|EncodeHead(s)|)
  {
    var stream, lines := Encode(s) + rest, [RequestLine(s)] + FieldLines(s.fields);
    LinesOf(s);
    FieldsAreClean(s);
    hide RequestLine, FieldLines, SplitCrlf, NoCrlf;
    assert stream == JoinCrlf(lines) + TERMINATOR + rest;
    assert stream[|EncodeHead(s)|..|EncodeHead(s)| + 4] == TERMINATOR;
    assert TerminatorAt(stream, |EncodeHead(s)|);
    var p := FindTerminator(stream);
    TerminatorAfterLines(lines, rest, p.index);
  }

  lemma FieldsAreClean(s: Spoken)
    requires forall l :: l in FieldLines(s.fields) ==> 13 !in l && l != []
    ensures forall l :: l in FieldLines(s.fields) ==> NoCrlf(l) && l != [] && l[0] != CR
  {
  }

  /**
    From the wire and back: a request of at most 8192 bytes, however it is spelled, followed by anything and cut into
    packets anyhow, is read as exactly that request, and what goes upstream is exactly what followed it.
   */
  lemma RequestReadsBack(utf8: Octets -> bool, s: Spoken, rest: Octets, chunks: seq<Octets>)
    requires Speakable(s) && utf8(EncodeHead(s)) && |Encode(s)| <= MAX_HEAD_BYTES
    requires Readable(chunks) && Concat(chunks) == Encode(s) + rest
    ensures var h := ReadFrom([], chunks, 0);
            && h.Head? && h.used <= |chunks|
            && ParseHead(utf8, h.head) == Ok(Spelled(s)) && h.pending + Concat(chunks[h.used..]) == rest
  {
    hide Speakable, EncodeHead, ParseHead, ReadFrom, FindTerminator, Concat, Spelled;
    TerminatorIsFirst(s, rest);
    AcceptedWithinLimit(chunks);
    HeadIsExact(chunks);
    NothingLostAfterTheHead(chunks);
    var h := ReadFrom([], chunks, 0);
    var tail := h.pending + Concat(chunks[h.used..]);
    assert h.head + TERMINATOR + tail == EncodeHead(s) + TERMINATOR + rest && |h.head| == |EncodeHead(s)|;
    assert h.head == (h.head + TERMINATOR + tail)[..|h.head|] == EncodeHead(s);
    assert tail == (h.head + TERMINATOR + tail)[|h.head| + 4..] == rest;
    HeadReadsBack(utf8, s);
  }

  /** Field `i` of the request carries credentials, under that name in any letter case. */
  predicate Offers(s: Spoken, i: int) { 0 <= i < |s.fields| && InAnyCase(s.fields[i].name, "proxy-authorization") }

  /** The request may go on: nothing is asked for, or it offers the configured pair under capacity. */
  ghost predicate Welcome(env: Env, s: Spoken, capacity: bool) {
    env.auth.Disabled? ||
    (capacity &&
     exists i :: Offers(s, i) && env.decode(s.fields[i].value) == Some((env.auth.username, env.auth.password)))
  }

  lemma OffersAreCredentials(s: Spoken)
    requires Speakable(s)
    ensures var c := Credentials(HeadersOf(s.fields));
            && (c == None <==> forall i :: !Offers(s, i))
            && (forall i :: Offers(s, i) ==> c == Some(s.fields[i].value))
  {
    var headers := HeadersOf(s.fields);
    HeadersOfAt(s.fields);
    CredentialsIff(headers);
    hide InAnyCase, HeadersOf, Credentials, Sendable, Word, IsText, IsFraming;
    assert forall i :: 0 <= i < |headers| ==> (IsCredentials(headers[i].name) <==> Offers(s, i));
    forall i | Offers(s, i) ensures Credentials(headers) == Some(s.fields[i].value) {
      forall j | 0 <= j < i ensures !IsCredentials(headers[j].name) {
        assert FieldNames(s.fields)[i] == headers[i].name && FieldNames(s.fields)[j] == headers[j].name;
      }
      assert FirstCredentials(headers, i);
    }
  }

  lemma WelcomeIsAdmitted(env: Env, s: Spoken, capacity: bool)
    requires Speakable(s)
    ensures Welcome(env, s, capacity) <==>
            Admitted(env.auth, Credentials(HeadersOf(s.fields)), env.decode, capacity)
  {
    OffersAreCredentials(s);
    hide Speakable, Offers, Credentials, HeadersOf;
  }

  /**
    The request on the wire decides, exactly. For every request of at most 8192 bytes, however spelled, and whatever
    follows it, in any packets: one that is welcome gets the verdict on its own authority, and exactly what followed it
    is left for the destination; one that is not is challenged if it offers nothing, rate limited if it offers
    something without capacity, and refused as a failure if it offers anything else.
   */
  lemma NegotiateDecodes(env: Env, s: Spoken, rest: Octets, chunks: seq<Octets>, capacity: bool)
    requires Speakable(s) && env.utf8(EncodeHead(s)) && |Encode(s)| <= MAX_HEAD_BYTES
    requires Readable(chunks) && Concat(chunks) == Encode(s) + rest
    ensures var n, verdict := Negotiate(env, chunks, capacity), TargetFromAuthority(env.cfg, s.authority);
            if !Welcome(env, s, capacity) then
              n == Err(if forall i :: !Offers(s, i) then AuthRequired
                       else if !capacity then AuthRateLimited else AuthFailed)
            else if verdict.Err? then n == Err(verdict.error)
            else
              && n.Ok? && n.value.target == verdict.value && n.value.used <= |chunks|
              && n.value.pending + Concat(chunks[n.value.used..]) == rest
  {
    hide Speakable, Encode, EncodeHead, ParseHead, ReadFrom, Concat, Connect, Credentials, Readable, HeadersOf, Offers,
      Welcome, Admitted, TargetFromAuthority;
    RequestReadsBack(env.utf8, s, rest, chunks);
    OffersAreCredentials(s);
    WelcomeIsAdmitted(env, s, capacity);
    ConnectVerdict(env.auth, env.cfg, Credentials(HeadersOf(s.fields)), env.decode, s.authority, capacity);
  }

  /** What an accepted head offers is the value of its one header of that name. */
  lemma PresentedAreCredentials(utf8: Octets -> bool, head: Octets)
    requires ParseHead(utf8, head).Ok?
    ensures var headers := ParseHead(utf8, head).value.headers;
            forall v :: Credentials(headers) == Some(v) <==>
              exists x :: x in headers && InAnyCase(x.name, "proxy-authorization") && x.value == v
  {
    var headers := ParseHead(utf8, head).value.headers;
    var s := AcceptedIsSpoken(utf8, head);
    hide ParseHead, Speakable, EncodeHead, Credentials, HeadersOf, InAnyCase;
    HeadersOfAt(s.fields);
    OffersAreCredentials(s);
    forall v
      ensures Credentials(headers) == Some(v) <==>
              exists x :: x in headers && InAnyCase(x.name, "proxy-authorization") && x.value == v
    {
      if Credentials(headers) == Some(v) {
        var i :| Offers(s, i);
        assert headers[i] in headers;
      }
      if x :| x in headers && InAnyCase(x.name, "proxy-authorization") && x.value == v {
        var i :| 0 <= i < |headers| && headers[i] == x;
        assert Offers(s, i);
      }
    }
  }

  /** With authentication required a target takes capacity and the configured pair in the head that was read. */
  lemma NegotiateTakesCredentials(env: Env, chunks: seq<Octets>, capacity: bool)
    ensures var n := Negotiate(env, chunks, capacity);
            && (n.Ok? ==> Dialable(n.value.target, env.cfg.hasV6, env.cfg.parse))
            && (n.Ok? && env.auth.Required? ==> capacity && Presented(env, chunks))
            && (n == Err(AuthFailed) ==> env.auth.Required? && capacity && !Presented(env, chunks))
  {
    var h := ReadFrom([], chunks, 0);
    hide ReadFrom, ParseHead, Credentials, Dialable, InAnyCase, TargetFromAuthority;
    if h.Head? {
      HeadNamesNoPair(env.utf8, h.head);
      var r := ParseHead(env.utf8, h.head);
      if r.Ok? {
        var header := Credentials(r.value.headers);
        PresentedAreCredentials(env.utf8, h.head);
        ConnectTakesCredentials(env.auth, env.cfg, header, env.decode, r.value.authority, capacity);
        TargetErrors(env.cfg, r.value.authority);
        if Presented(env, chunks) {
          var x :| x in r.value.headers && InAnyCase(x.name, "proxy-authorization") &&
            env.decode(x.value) == Some((env.auth.username, env.auth.password));
          assert header == Some(x.value);
        }
      }
    }
  }

  /** The head that was read carries the configured pair. */
  predicate Presented(env: Env, chunks: seq<Octets>) {
    var h := ReadFrom([], chunks, 0);
    && env.auth.Required? && h.Head? && ParseHead(env.utf8, h.head).Ok?
    && exists x :: x in ParseHead(env.utf8, h.head).value.headers &&
         InAnyCase(x.name, "proxy-authorization") &&
         env.decode(x.value) == Some((env.auth.username, env.auth.password))
  }

  /** The front end as it runs: read, parse, authorize, and only then the destination. */
  method DoNegotiate(env: Env, chunks: seq<Octets>, limiter: Limiter.AuthRateLimiter, peer: Limiter.Peer,
                     asked: real, failed: real)
    returns (n: Result<Negotiated>, ghost call: Option<Limiter.Call>)
    modifies limiter
    ensures n == Negotiate(env, chunks, old(Limiter.HasCapacity(limiter.buckets, peer, asked)))
    ensures call.Some? <==> n == Err(AuthFailed)
    ensures call.None? ==> limiter.buckets == old(limiter.buckets)
    ensures call.Some? ==>
              && call.value.Failed? && call.value.peer == peer && call.value.now == failed
              && Limiter.Legal(old(limiter.buckets), call.value)
              && limiter.buckets == Limiter.Next(old(limiter.buckets), call.value)
              && old(Limiter.HasCapacity(limiter.buckets, peer, asked))
  {
    hide Limiter.Legal, Limiter.Next, Limiter.HasCapacity, ReadFrom, Connect;
    call := None;
    var read := ReadHead(chunks);
    if !read.Head? {
      return Err(if read.HeadTooLarge? then HttpError.HeadTooLarge else Malformed), None;
    }
    HeadNamesNoPair(env.utf8, read.head);
    var parsed := DoParseHead(env.utf8, read.head);
    if parsed.Err? {
      return Err(parsed.error), None;
    }
    var r := parsed.value;
    var offered := Credentials(r.headers);
    var t, c := DoConnect(env.auth, env.cfg, offered, env.decode, r.authority, limiter, peer, asked, failed);
    call := c;
    n := if t.Err? then Err(t.error) else Ok(Negotiated(t.value, read.pending, read.used));
  }
}
