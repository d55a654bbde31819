/**
  The head of an HTTP request, parsed line by line, against every way a client may spell a CONNECT request. UTF-8
  validity is a parameter.
 */
module HttpRequest {
  import opened Wrappers
  import opened Bytes
  import opened HttpConnect

  type Result<T> = HttpConnect.Result<T>

  const MAX_REQUEST_LINE := 1024
  const MAX_HEADER_COUNT := 64

  const CR: Byte := 13
  const LF: Byte := 10
  const SPACE: Byte := 32
  const TAB: Byte := 9
  const CRLF: Octets := [CR, LF]
  const CONNECT: Octets := [67, 79, 78, 78, 69, 67, 84]
  const HTTP_1_1: Octets := [72, 84, 84, 80, 47, 49, 46, 49]
  const HTTP_1_0: Octets := [72, 84, 84, 80, 47, 49, 46, 48]
  const HTTP_SCHEME: Octets := [104, 116, 116, 112, 58, 47, 47]
  const HTTPS_SCHEME: Octets := [104, 116, 116, 112, 115, 58, 47, 47]
  const CONTENT_LENGTH: Octets := [99, 111, 110, 116, 101, 110, 116, 45, 108, 101, 110, 103, 116, 104]
  const TRANSFER_ENCODING: Octets :=
    [116, 114, 97, 110, 115, 102, 101, 114, 45, 101, 110, 99, 111, 100, 105, 110, 103]
  const PROXY_AUTHORIZATION: Octets :=
    [112, 114, 111, 120, 121, 45, 97, 117, 116, 104, 111, 114, 105, 122, 97, 116, 105, 111, 110]

  datatype Header = Header(name: Octets, value: Octets)

  datatype Request = Request(authority: Octets, headers: seq<Header>)

  // ----- splitting -----------------------------------------------------------------------------

  /** Where the first CRLF is, or `|s|` when there is none. */
  function FirstCrlf(s: Octets): (i: nat)
    ensures i <= |s| && (i < |s| ==> i + 2 <= |s| && s[i..i + 2] == CRLF)
  {
    if |s| < 2 then |s|
    else if s[..2] == CRLF then 0
    else
      var i := FirstCrlf(s[1..]);
      assert i < |s[1..]| ==> s[i + 1..i + 3] == s[1..][i..i + 2];
      i + 1
  }

  function SplitCrlf(s: Octets): (lines: seq<Octets>)
    ensures lines != []
    decreases |s|
  {
    var i := FirstCrlf(s);
    if i == |s| then [s] else [s[..i]] + SplitCrlf(s[i + 2..])
  }

  function JoinCrlf(lines: seq<Octets>): Octets
    requires lines != []
  {
    if |lines| == 1 then lines[0] else lines[0] + CRLF + JoinCrlf(lines[1..])
  }

  function SplitOn(s: Octets, b: Byte): (parts: seq<Octets>)
    ensures parts != []
    decreases |s|
  {
    var i := FirstIndex(s, b);
    if i == |s| then [s] else [s[..i]] + SplitOn(s[i + 1..], b)
  }

  // ----- parsing -------------------------------------------------------------------------------

  predicate IsAscii(s: Octets) { forall b :: b in s ==> b < 128 }

  predicate IsTchar(b: Byte) {
    || 48 <= b <= 57 || 65 <= b <= 90 || 97 <= b <= 122
    || b in {33, 35, 36, 37, 38, 39, 42, 43, 45, 46, 94, 95, 96, 124, 126}
  }

  predicate IsToken(s: Octets) { s != [] && forall b :: b in s ==> IsTchar(b) }

  predicate IsBlank(b: Byte) { b == SPACE || b == TAB }

  predicate HasControl(s: Octets) { exists b :: b in s && (b < 32 || b == 127) }

  function TrimStart(s: Octets): Octets { if s != [] && IsBlank(s[0]) then TrimStart(s[1..]) else s }

  function TrimEnd(s: Octets): Octets {
    if s != [] && IsBlank(s[|s| - 1]) then TrimEnd(s[..|s| - 1]) else s
  }

  function Lower(b: Byte): Byte { if 65 <= b <= 90 then b + 32 else b }

  /** Names compare without regard to ASCII case. */
  predicate SameName(a: Octets, b: Octets) { |a| == |b| && forall i :: 0 <= i < |a| ==> Lower(a[i]) == Lower(b[i]) }

  function ParseRequestLine(line: Octets): Result<Octets> {
    var parts := SplitOn(line, SPACE);
    if !IsAscii(line) || |parts| != 3 || parts[0] == [] || parts[1] == [] then Err(Malformed)
    else if parts[2] != HTTP_1_1 && parts[2] != HTTP_1_0 then Err(Malformed)
    else if parts[0] == CONNECT then Ok(parts[1])
    else if HTTP_SCHEME <= parts[1] || HTTPS_SCHEME <= parts[1] then Err(AbsoluteFormUnsupported)
    else Err(MethodNotSupported(parts[0]))
  }

  function ParseHeader(line: Octets): Result<Header> {
    var i := FirstIndex(line, COLON);
    if i == |line| || !IsToken(line[..i]) then Err(Malformed)
    else
      var value := TrimEnd(TrimStart(line[i + 1..]));
      if HasControl(value) then Err(Malformed) else Ok(Header(line[..i], value))
  }

  function ParseHeaders(lines: seq<Octets>, acc: seq<Header>): Result<seq<Header>>
    decreases |lines|
  {
    if lines == [] then Ok(acc)
    else
      var line := lines[0];
      if CR in line || LF in line then Err(Malformed)
      else if line != [] && IsBlank(line[0]) then Err(Malformed)
      else if |acc| >= MAX_HEADER_COUNT then Err(TooManyHeaders)
      else match ParseHeader(line)
        case Err(e) => Err(e)
        case Ok(h) => ParseHeaders(lines[1..], acc + [h])
  }

  /** How many headers carry this name. */
  function Named(headers: seq<Header>, name: Octets): nat {
    if headers == [] then 0 else (if SameName(headers[0].name, name) then 1 else 0) + Named(headers[1..], name)
  }

  /** Framing headers have no place on a CONNECT, and credentials may be given once. */
  predicate Ambiguous(headers: seq<Header>) {
    || Named(headers, CONTENT_LENGTH) > 0 || Named(headers, TRANSFER_ENCODING) > 0
    || Named(headers, PROXY_AUTHORIZATION) > 1
  }

  function ParseHead(utf8: Octets -> bool, head: Octets): Result<Request> {
    var lines := SplitCrlf(head);
    if !utf8(head) then Err(Malformed)
    else if |lines[0]| > MAX_REQUEST_LINE then Err(HttpError.HeadTooLarge)
    else match ParseRequestLine(lines[0])
      case Err(e) => Err(e)
      case Ok(authority) => match ParseHeaders(lines[1..], [])
        case Err(e) => Err(e)
        case Ok(headers) => if Ambiguous(headers) then Err(Malformed) else Ok(Request(authority, headers))
  }

  /** The credentials offered: the value of the first header of that name. */
  function Credentials(headers: seq<Header>): Option<Octets> {
    if headers == [] then None
    else if SameName(headers[0].name, PROXY_AUTHORIZATION) then Some(headers[0].value)
    else Credentials(headers[1..])
  }

  /** The loop over header lines. */
  method DoParseHeaders(lines: seq<Octets>) returns (r: Result<seq<Header>>)
    ensures r == ParseHeaders(lines, [])
  {
    var headers: seq<Header> := [];
    var i := 0;
    assert lines[0..] == lines;
    while i < |lines|
      invariant 0 <= i <= |lines|
      invariant ParseHeaders(lines[i..], headers) == ParseHeaders(lines, [])
    {
      var line := lines[i];
      assert lines[i..][0] == line && lines[i..][1..] == lines[i + 1..];
      if CR in line || LF in line {
        return Err(Malformed);
      }
      if line != [] && IsBlank(line[0]) {
        return Err(Malformed);
      }
      if |headers| >= MAX_HEADER_COUNT {
        return Err(TooManyHeaders);
      }
      var h := ParseHeader(line);
      if h.Err? {
        return Err(h.error);
      }
      headers := headers + [h.value];
      i := i + 1;
    }
    r := Ok(headers);
  }

  method DoParseHead(utf8: Octets -> bool, head: Octets) returns (r: Result<Request>)
    ensures r == ParseHead(utf8, head)
  {
    if !utf8(head) {
      return Err(Malformed);
    }
    var lines := SplitCrlf(head);
    if |lines[0]| > MAX_REQUEST_LINE {
      return Err(HttpError.HeadTooLarge);
    }
    var authority := ParseRequestLine(lines[0]);
    if authority.Err? {
      return Err(authority.error);
    }
    var headers := DoParseHeaders(lines[1..]);
    if headers.Err? {
      return Err(headers.error);
    }
    if Ambiguous(headers.value) {
      return Err(Malformed);
    }
    r := Ok(Request(authority.value, headers.value));
  }
}
