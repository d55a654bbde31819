/**
  Command lines for the management channel. openvpn reads them back with its config-file lexer, so
  the builder is correct when that lexer returns exactly the verb and the parameters that went in.
  Strings are their UTF-8 bytes, as the limits and the checks are in bytes.
 */
module Escape {
  import opened Wrappers
  import opened Bytes

  const MAX_LINE_BYTES := 900

  const QUOTE: Byte := 34
  const BACKSLASH: Byte := 92
  const SPACE: Byte := 32

  type Result<T> = Wrappers.Result<T, MgmtError>

  datatype MgmtError = InvalidVerb | ForbiddenControlChar | LineTooLong(bytes: nat)

  // ----- building ------------------------------------------------------------------------------

  predicate IsFramingHazard(b: Byte) { b == 10 || b == 13 || b == 0 }

  predicate IsVerbByte(b: Byte) {
    || 48 <= b <= 57 || 65 <= b <= 90 || 97 <= b <= 122
    || b == 45 || b == 95
  }

  predicate HazardFree(s: Octets) { forall b :: b in s ==> !IsFramingHazard(b) }

  predicate IsVerb(s: Octets) { s != [] && forall b :: b in s ==> IsVerbByte(b) }

  function Body(raw: Octets): Octets {
    if raw == [] then []
    else (if raw[0] == QUOTE || raw[0] == BACKSLASH then [BACKSLASH, raw[0]] else [raw[0]]) + Body(raw[1..])
  }

  function EscapeParam(raw: Octets): Result<Octets> {
    if !HazardFree(raw) then Err(ForbiddenControlChar) else Ok([QUOTE] + Body(raw) + [QUOTE])
  }

  /** The fold over parameters, stopping at the first that cannot be escaped. */
  function AppendParams(line: Octets, params: seq<Octets>): Result<Octets>
    decreases |params|
  {
    if params == [] then Ok(line)
    else match EscapeParam(params[0])
      case Err(e) => Err(e)
      case Ok(escaped) => AppendParams(line + [SPACE] + escaped, params[1..])
  }

  function CheckLineLength(line: Octets): Result<Octets> {
    if |line| > MAX_LINE_BYTES then Err(LineTooLong(|line|))
    else if !HazardFree(line) then Err(ForbiddenControlChar)
    else Ok(line)
  }

  function BuildCommand(verb: Octets, params: seq<Octets>): Result<Octets> {
    if !IsVerb(verb) then Err(InvalidVerb)
    else match AppendParams(verb, params)
      case Err(e) => Err(e)
      case Ok(line) => CheckLineLength(line)
  }

  // ----- the config-file lexer -----------------------------------------------------------------

  predicate IsSpace(b: Byte) { b == SPACE || 9 <= b <= 13 }

  predicate StartsComment(b: Byte) { b == 35 || b == 59 }

  datatype Lexed = Param(text: Octets, rest: Octets) | Unterminated

  function Prefixed(b: Byte, l: Lexed): Lexed {
    if l.Param? then l.(text := [b] + l.text) else l
  }

  /** Inside double quotes: a backslash takes the next byte literally. */
  function LexQuoted(s: Octets): (r: Lexed)
    ensures r.Param? ==> |r.rest| < |s|
    decreases |s|
  {
    if s == [] then Unterminated
    else if s[0] == QUOTE then Param([], s[1..])
    else if s[0] == BACKSLASH then
      if |s| == 1 then Unterminated else Prefixed(s[1], LexQuoted(s[2..]))
    else Prefixed(s[0], LexQuoted(s[1..]))
  }

  function LexBare(s: Octets): (r: Lexed)
    ensures r.Param? && |r.rest| <= |s| && (s != [] && !IsSpace(s[0]) ==> |r.rest| < |s|)
    decreases |s|
  {
    if s == [] || IsSpace(s[0]) then Param([], s) else Prefixed(s[0], LexBare(s[1..]))
  }

  datatype Words = Words(words: seq<Octets>) | NoClosingQuote

  /** Whitespace separates, quotes delimit, `#` and `;` at the start of a parameter end the line. */
  function Lex(s: Octets): Words
    decreases |s|
  {
    if s == [] then Words([])
    else if IsSpace(s[0]) then Lex(s[1..])
    else if StartsComment(s[0]) then Words([])
    else
      var l := if s[0] == QUOTE then LexQuoted(s[1..]) else LexBare(s);
      if l.Unterminated? then NoClosingQuote
      else match Lex(l.rest)
        case NoClosingQuote => NoClosingQuote
        case Words(ws) => Words([l.text] + ws)
  }

  // ----- round trip ----------------------------------------------------------------------------

  lemma Regroup(x: Octets, body: Octets, rest: Octets)
    ensures (x + body) + [QUOTE] + rest == x + (body + [QUOTE] + rest)
    ensures (x + (body + [QUOTE] + rest))[|x|..] == body + [QUOTE] + rest
  {
  }

  lemma {:induction false} LexEscapedBody(raw: Octets, rest: Octets)
    ensures LexQuoted(Body(raw) + [QUOTE] + rest) == Param(raw, rest)
    decreases |raw|
  {
    if raw == [] {
      assert (Body(raw) + [QUOTE] + rest)[1..] == rest;
    } else {
      LexEscapedBody(raw[1..], rest);
      var body := Body(raw[1..]);
      var x := if raw[0] == QUOTE || raw[0] == BACKSLASH then [BACKSLASH, raw[0]] else [raw[0]];
      assert Body(raw) == x + body && raw == [raw[0]] + raw[1..];
      hide Body;
      Regroup(x, body, rest);
    }
  }

  lemma {:induction false} LexVerb(verb: Octets, rest: Octets)
    requires forall b :: b in verb ==> IsVerbByte(b)
    requires rest == [] || rest[0] == SPACE
    ensures LexBare(verb + rest) == Param(verb, rest)
    decreases |verb|
  {
    if verb == [] {
      assert verb + rest == rest;
    } else {
      assert verb[0] in verb;
      assert (verb + rest)[1..] == verb[1..] + rest;
      LexVerb(verb[1..], rest);
    }
  }

  /** The parameter part of a line, as text. */
  function Rendered(params: seq<Octets>): Octets {
    if params == [] then []
    else [SPACE] + ([QUOTE] + Body(params[0]) + [QUOTE]) + Rendered(params[1..])
  }

  lemma {:induction false} AppendParamsRenders(line: Octets, params: seq<Octets>)
    ensures var r := AppendParams(line, params);
            && (r.Ok? <==> forall p :: p in params ==> HazardFree(p))
            && (r.Ok? ==> r.value == line + Rendered(params))
            && (r.Err? ==> r.error == ForbiddenControlChar)
    decreases |params|
  {
    if params == [] {
      assert line + Rendered(params) == line;
    } else {
      assert params == [params[0]] + params[1..];
      var escaped := [QUOTE] + Body(params[0]) + [QUOTE];
      AppendParamsRenders(line + [SPACE] + escaped, params[1..]);
      assert line + ([SPACE] + escaped + Rendered(params[1..])) == line + [SPACE] + escaped + Rendered(params[1..]);
    }
  }

  lemma {:induction false} LexRendered(params: seq<Octets>)
    ensures Lex(Rendered(params)) == Words(params)
    decreases |params|
  {
    if params != [] {
      var p, rest := params[0], Rendered(params[1..]);
      var s := Rendered(params);
      assert s[1..] == [QUOTE] + Body(p) + [QUOTE] + rest;
      assert s[1..][1..] == Body(p) + [QUOTE] + rest;
      LexEscapedBody(p, rest);
      LexRendered(params[1..]);
    }
  }

  lemma {:induction false} BodyHazardFree(raw: Octets)
    requires HazardFree(raw)
    ensures HazardFree(Body(raw))
  {
    if raw != [] {
      assert raw[0] in raw;
      BodyHazardFree(raw[1..]);
    }
  }

  lemma {:induction false} RenderedHazardFree(params: seq<Octets>)
    requires forall p :: p in params ==> HazardFree(p)
    ensures HazardFree(Rendered(params))
  {
    if params != [] {
      assert params[0] in params;
      BodyHazardFree(params[0]);
      RenderedHazardFree(params[1..]);
    }
  }

  /** Every line the builder accepts lexes back to exactly the verb and parameters it was given. */
  lemma RoundTrip(verb: Octets, params: seq<Octets>)
    requires BuildCommand(verb, params).Ok?
    ensures var line := BuildCommand(verb, params).value;
            Lex(line) == Words([verb] + params) && |line| <= 900 && 10 !in line && 13 !in line && 0 !in line
  {
    AppendParamsRenders(verb, params);
    LexVerb(verb, Rendered(params));
    LexRendered(params);
    assert verb[0] in verb && (verb + Rendered(params))[0] == verb[0];
  }

  /** The bytes that need a backslash. */
  function Specials(raw: Octets): nat {
    if raw == [] then 0 else (if raw[0] == 34 || raw[0] == 92 then 1 else 0) + Specials(raw[1..])
  }

  /** What the parameters take on the line: a space and two quotes each, and a backslash for every special byte. */
  function Width(params: seq<Octets>): nat {
    if params == [] then 0 else 3 + |params[0]| + Specials(params[0]) + Width(params[1..])
  }

  lemma {:induction false} BodyWidth(raw: Octets)
    ensures |Body(raw)| == |raw| + Specials(raw)
  {
    if raw != [] {
      BodyWidth(raw[1..]);
    }
  }

  lemma {:induction false} RenderedWidth(params: seq<Octets>)
    ensures |Rendered(params)| == Width(params)
  {
    if params != [] {
      BodyWidth(params[0]);
      RenderedWidth(params[1..]);
    }
  }

  /**
    Accepted exactly when the verb is made of letters, digits, `-` and `_`, no parameter holds a line feed, a carriage
    return or a NUL, and the line takes at most 900 bytes; otherwise the first of these that fails is the error.
   */
  lemma AcceptedIff(verb: Octets, params: seq<Octets>)
    ensures var width := |verb| + Width(params);
            var named := verb != [] && forall b :: b in verb ==>
              48 <= b <= 57 || 65 <= b <= 90 || 97 <= b <= 122 || b == 45 || b == 95;
            var safe := forall p :: p in params ==> 10 !in p && 13 !in p && 0 !in p;
            var r := BuildCommand(verb, params);
            if !named then r == Err(InvalidVerb)
            else if !safe then r == Err(ForbiddenControlChar)
            else if width > 900 then r == Err(LineTooLong(width))
            else r.Ok? && |r.value| == width
  {
    AppendParamsRenders(verb, params);
    RenderedWidth(params);
    if forall p :: p in params ==> HazardFree(p) {
      RenderedHazardFree(params);
    }
  }

  /** No two different commands share a line: a value cannot smuggle itself into another parameter. */
  lemma LinesAreUnambiguous(v: Octets, ps: seq<Octets>, v': Octets, ps': seq<Octets>)
    requires BuildCommand(v, ps).Ok? && BuildCommand(v, ps) == BuildCommand(v', ps')
    ensures v == v' && ps == ps'
  {
    RoundTrip(v, ps);
    RoundTrip(v', ps');
    assert ([v] + ps)[0] == ([v'] + ps')[0] && ([v] + ps)[1..] == ([v'] + ps')[1..];
  }
}
