/**
  Every way a client may spell a CONNECT request, written from RFC 9110 and RFC 9112, and that the parser accepts
  exactly those heads, each as the request it spells.
 */
module HttpSpelling {
  import opened Wrappers
  import opened Bytes
  import opened HttpConnect
  import opened HttpRequest

  // ----- names ---------------------------------------------------------------------------------

  /** A name, in any letter case; `lower` is its lower-case spelling. */
  predicate InAnyCase(name: Octets, lower: string) {
    |name| == |lower| && forall i :: 0 <= i < |name| ==>
      name[i] == lower[i] as int || ('a' <= lower[i] <= 'z' && name[i] == lower[i] as int - 32)
  }

  predicate IsFraming(name: Octets) { InAnyCase(name, "content-length") || InAnyCase(name, "transfer-encoding") }

  predicate IsCredentials(name: Octets) { InAnyCase(name, "proxy-authorization") }

  lemma SameNameIff(name: Octets, lower: Octets, text: string)
    requires IsText(lower, text) && forall b :: b in lower ==> !(65 <= b <= 90)
    ensures SameName(name, lower) <==> InAnyCase(name, text)
  {
    if |name| == |lower| {
      forall i | 0 <= i < |name|
        ensures Lower(name[i]) == Lower(lower[i]) <==>
                name[i] == text[i] as int || ('a' <= text[i] <= 'z' && name[i] == text[i] as int - 32)
      {
        assert lower[i] in lower;
      }
    }
  }

  lemma FramingIff(name: Octets)
    ensures SameName(name, CONTENT_LENGTH) || SameName(name, TRANSFER_ENCODING) <==> IsFraming(name)
  {
    hide SameName, InAnyCase;
    SameNameIff(name, CONTENT_LENGTH, "content-length");
    SameNameIff(name, TRANSFER_ENCODING, "transfer-encoding");
  }

  lemma CredentialsNameIff(name: Octets)
    ensures SameName(name, PROXY_AUTHORIZATION) <==> IsCredentials(name)
  {
    hide SameName, InAnyCase;
    SameNameIff(name, PROXY_AUTHORIZATION, "proxy-authorization");
  }

  lemma {:induction false} NamedIff(headers: seq<Header>, name: Octets)
    ensures Named(headers, name) > 0 <==> exists i :: 0 <= i < |headers| && SameName(headers[i].name, name)
    decreases |headers|
  {
    hide SameName;
    if headers != [] {
      var rest := headers[1..];
      NamedIff(rest, name);
      if i :| 0 <= i < |rest| && SameName(rest[i].name, name) {
        assert SameName(headers[i + 1].name, name);
      }
      if i :| 0 < i < |headers| && SameName(headers[i].name, name) {
        assert SameName(rest[i - 1].name, name);
      }
    }
  }

  lemma {:induction false} NamedTwiceIff(headers: seq<Header>, name: Octets)
    ensures Named(headers, name) > 1 <==>
            exists i, j :: 0 <= i < j < |headers| && SameName(headers[i].name, name) && SameName(headers[j].name, name)
    decreases |headers|
  {
    hide SameName;
    if headers != [] {
      var rest := headers[1..];
      assert forall i :: 0 < i < |headers| ==> headers[i] == rest[i - 1];
      NamedIff(rest, name);
      NamedTwiceIff(rest, name);
      if i, j :| 0 <= i < j < |rest| && SameName(rest[i].name, name) && SameName(rest[j].name, name) {
        assert headers[i + 1] == rest[i] && headers[j + 1] == rest[j];
      }
      if SameName(headers[0].name, name) {
        if i :| 0 <= i < |rest| && SameName(rest[i].name, name) {
          assert headers[i + 1] == rest[i];
        }
      }
      if i, j :| 0 <= i < j < |headers| && SameName(headers[i].name, name) && SameName(headers[j].name, name) {
        assert SameName(rest[j - 1].name, name);
        if i > 0 {
          assert SameName(rest[i - 1].name, name);
        }
      }
    }
  }

  /** Nothing frames a body, and credentials come at most once. */
  ghost predicate Unambiguous(names: seq<Octets>) {
    && (forall i :: 0 <= i < |names| ==> !IsFraming(names[i]))
    && (forall i, j :: 0 <= i < j < |names| ==> !(IsCredentials(names[i]) && IsCredentials(names[j])))
  }

  function Names(headers: seq<Header>): seq<Octets> { seq(|headers|, i requires 0 <= i < |headers| => headers[i].name) }

  lemma AmbiguousIff(headers: seq<Header>)
    ensures Ambiguous(headers) <==> !Unambiguous(Names(headers))
  {
    hide SameName, IsFraming, IsCredentials, Named;
    var names := Names(headers);
    NamedIff(headers, CONTENT_LENGTH);
    NamedIff(headers, TRANSFER_ENCODING);
    NamedTwiceIff(headers, PROXY_AUTHORIZATION);
    forall i | 0 <= i < |names|
      ensures IsFraming(names[i]) <==>
              SameName(headers[i].name, CONTENT_LENGTH) || SameName(headers[i].name, TRANSFER_ENCODING)
      ensures SameName(headers[i].name, PROXY_AUTHORIZATION) <==> IsCredentials(names[i])
    {
      FramingIff(names[i]);
      CredentialsNameIff(names[i]);
    }
  }

  ghost predicate FirstCredentials(headers: seq<Header>, i: int) {
    0 <= i < |headers| && IsCredentials(headers[i].name) && forall j :: 0 <= j < i ==> !IsCredentials(headers[j].name)
  }

  /** The credentials offered: none if no header has that name, and the value of the one that has. */
  lemma {:induction false} CredentialsIff(headers: seq<Header>)
    ensures Credentials(headers) == None <==> forall i :: 0 <= i < |headers| ==> !IsCredentials(headers[i].name)
    ensures forall i :: FirstCredentials(headers, i) ==> Credentials(headers) == Some(headers[i].value)
    decreases |headers|
  {
    hide SameName, IsCredentials;
    if headers != [] {
      var rest := headers[1..];
      CredentialsNameIff(headers[0].name);
      CredentialsIff(rest);
      assert forall i :: 0 < i < |headers| ==> headers[i] == rest[i - 1];
      if !IsCredentials(headers[0].name) {
        if Credentials(rest) == None {
          forall i | 0 <= i < |headers| ensures !IsCredentials(headers[i].name) {
            assert i > 0 ==> !IsCredentials(rest[i - 1].name);
          }
        }
        forall i | FirstCredentials(headers, i) ensures Credentials(headers) == Some(headers[i].value) {
          assert rest[i - 1] == headers[i];
          assert forall j :: 0 <= j < i - 1 ==> rest[j] == headers[j + 1];
          assert FirstCredentials(rest, i - 1);
        }
        assert forall i :: 0 <= i < |rest| ==> rest[i] == headers[i + 1];
      }
    }
  }

  /** A byte of a token: visible ASCII that delimits nothing. */
  predicate TokenByte(b: Byte) {
    33 <= b <= 126 && b !in {34, 40, 41, 44, 47, 58, 59, 60, 61, 62, 63, 64, 91, 92, 93, 123, 125}
  }

  lemma TcharIff(b: Byte)
    ensures IsTchar(b) <==> TokenByte(b)
  {
  }

  // ----- spelled requests ----------------------------------------------------------------------

  /** One header as it is sent: blanks of any number may stand on either side of the value. */
  datatype Field = Field(name: Octets, before: Octets, value: Octets, after: Octets)

  datatype Spoken = Spoken(verb: Octets, authority: Octets, version: Octets, fields: seq<Field>)

  predicate Blanks(s: Octets) { forall b :: b in s ==> b == 32 || b == 9 }

  /** Visible bytes and blanks, and anything past ASCII, with no blank at either end. */
  predicate Bounded(s: Octets) {
    && (forall b :: b in s ==> b >= 32 && b != 127)
    && (s != [] ==> s[0] != 32 && s[|s| - 1] != 32)
  }

  predicate Sendable(f: Field) {
    && f.name != [] && (forall b :: b in f.name ==> TokenByte(b))
    && Blanks(f.before) && Blanks(f.after) && Bounded(f.value)
  }

  predicate NoCrlf(s: Octets) { forall i :: 0 <= i < |s| - 1 ==> !(s[i] == 13 && s[i + 1] == 10) }

  predicate Ascii(s: Octets) { forall b :: b in s ==> b < 128 }

  predicate IsVersion(s: Octets) { IsText(s, "HTTP/1.1") || IsText(s, "HTTP/1.0") }

  /** A word of the request line. */
  predicate Word(s: Octets) { s != [] && 32 !in s && NoCrlf(s) && Ascii(s) }

  function FieldNames(fields: seq<Field>): seq<Octets> { seq(|fields|, i requires 0 <= i < |fields| => fields[i].name) }

  /** A request a client may send. */
  ghost predicate Speakable(s: Spoken) {
    && IsText(s.verb, "CONNECT") && Word(s.authority)
    && IsVersion(s.version)
    && |RequestLine(s)| <= 1024 && |s.fields| <= 64
    && (forall f :: f in s.fields ==> Sendable(f)) && Unambiguous(FieldNames(s.fields))
  }

  function RequestLine(s: Spoken): Octets { s.verb + [32] + s.authority + [32] + s.version }

  function FieldLine(f: Field): Octets { f.name + [58] + (f.before + f.value + f.after) }

  function FieldLines(fields: seq<Field>): seq<Octets> {
    if fields == [] then [] else [FieldLine(fields[0])] + FieldLines(fields[1..])
  }

  function EncodeHead(s: Spoken): Octets { JoinCrlf([RequestLine(s)] + FieldLines(s.fields)) }

  function HeadersOf(fields: seq<Field>): seq<Header> {
    if fields == [] then [] else [Header(fields[0].name, fields[0].value)] + HeadersOf(fields[1..])
  }

  /** The request that is spelled. */
  function Spelled(s: Spoken): Request { Request(s.authority, HeadersOf(s.fields)) }

  lemma {:induction false} HeadersOfAt(fields: seq<Field>)
    ensures |HeadersOf(fields)| == |fields|
    ensures forall i :: 0 <= i < |fields| ==> HeadersOf(fields)[i] == Header(fields[i].name, fields[i].value)
    ensures Names(HeadersOf(fields)) == FieldNames(fields)
    decreases |fields|
  {
    if fields != [] {
      HeadersOfAt(fields[1..]);
    }
  }

  // ----- lines come back -----------------------------------------------------------------------

  lemma {:induction false} FirstCrlfOf(line: Octets, rest: Octets)
    requires NoCrlf(line)
    ensures FirstCrlf(line + CRLF + rest) == |line|
    decreases |line|
  {
    var s := line + CRLF + rest;
    if line == [] {
      assert s[..2] == CRLF;
    } else {
      assert s[0] == line[0] && s[1] == (if |line| > 1 then line[1] else CR) && s[1..] == line[1..] + CRLF + rest;
      assert s[..2] == [s[0], s[1]];
      assert forall i :: 0 <= i < |line[1..]| ==> line[1..][i] == line[i + 1];
      FirstCrlfOf(line[1..], rest);
    }
  }

  lemma {:induction false} FirstCrlfNone(s: Octets)
    requires NoCrlf(s)
    ensures FirstCrlf(s) == |s|
  {
    if |s| >= 2 {
      assert s[..2] == [s[0], s[1]];
      assert forall i :: 0 <= i < |s[1..]| ==> s[1..][i] == s[i + 1];
      FirstCrlfNone(s[1..]);
    }
  }

  lemma {:induction false} NoCrlfBefore(s: Octets)
    ensures NoCrlf(s[..FirstCrlf(s)])
    decreases |s|
  {
    var i := FirstCrlf(s);
    if |s| >= 2 && s[..2] != CRLF {
      NoCrlfBefore(s[1..]);
      assert s[..2] == [s[0], s[1]];
      var t := s[1..][..i - 1];
      assert forall k :: 0 < k < i ==> s[..i][k] == t[k - 1];
      forall k | 0 <= k < |s[..i]| - 1 ensures !(s[..i][k] == 13 && s[..i][k + 1] == 10) {
        if k > 0 {
          assert s[..i][k] == t[k - 1] && s[..i][k + 1] == t[k];
        }
      }
    }
  }

  lemma {:induction false} SplitOfJoin(lines: seq<Octets>)
    requires lines != [] && forall l :: l in lines ==> NoCrlf(l)
    ensures SplitCrlf(JoinCrlf(lines)) == lines
    decreases |lines|
  {
    hide NoCrlf, FirstCrlf;
    assert lines[0] in lines;
    if |lines| == 1 {
      FirstCrlfNone(lines[0]);
    } else {
      var rest := JoinCrlf(lines[1..]);
      var s := lines[0] + CRLF + rest;
      FirstCrlfOf(lines[0], rest);
      SplitOfJoin(lines[1..]);
      assert s[..|lines[0]|] == lines[0] && s[|lines[0]| + 2..] == rest;
    }
  }

  lemma {:induction false} JoinOfSplit(s: Octets)
    ensures JoinCrlf(SplitCrlf(s)) == s
    ensures forall l :: l in SplitCrlf(s) ==> NoCrlf(l)
    decreases |s|
  {
    var i := FirstCrlf(s);
    NoCrlfBefore(s);
    hide NoCrlf, FirstCrlf;
    if i < |s| {
      JoinOfSplit(s[i + 2..]);
      var rest := SplitCrlf(s[i + 2..]);
      assert ([s[..i]] + rest)[1..] == rest;
      assert s == s[..i] + s[i..i + 2] + s[i + 2..];
    } else {
      assert s[..i] == s;
    }
  }

  lemma SplitOnStep(a: Octets, rest: Octets, sep: Byte)
    requires sep !in a
    ensures SplitOn(a + [sep] + rest, sep) == [a] + SplitOn(rest, sep)
    ensures SplitOn(a, sep) == [a]
  {
    var s := a + [sep] + rest;
    FirstIndexOf(a, sep, rest);
    FirstIndexNone(a, sep);
    hide FirstIndex;
    assert s[..|a|] == a && s[|a| + 1..] == rest;
  }

  lemma SplitOnThree(a: Octets, b: Octets, c: Octets, sep: Byte)
    requires sep !in a && sep !in b && sep !in c
    ensures SplitOn(a + [sep] + b + [sep] + c, sep) == [a, b, c]
  {
    hide SplitOn;
    assert a + [sep] + b + [sep] + c == a + [sep] + (b + [sep] + c);
    SplitOnStep(a, b + [sep] + c, sep);
    SplitOnStep(b, c, sep);
    SplitOnStep(c, [], sep);
  }

  function JoinOn(parts: seq<Octets>, sep: Byte): Octets
    requires parts != []
  {
    if |parts| == 1 then parts[0] else parts[0] + [sep] + JoinOn(parts[1..], sep)
  }

  lemma {:induction false} JoinOfSplitOn(s: Octets, sep: Byte)
    ensures JoinOn(SplitOn(s, sep), sep) == s
    ensures forall p :: p in SplitOn(s, sep) ==> sep !in p
    decreases |s|
  {
    var i := FirstIndex(s, sep);
    hide FirstIndex;
    if i < |s| {
      var rest := SplitOn(s[i + 1..], sep);
      JoinOfSplitOn(s[i + 1..], sep);
      assert ([s[..i]] + rest)[1..] == rest;
      assert s == s[..i] + [sep] + s[i + 1..];
    } else {
      assert s[..i] == s;
    }
  }

  lemma JoinOnThree(p: seq<Octets>, sep: Byte)
    requires |p| == 3
    ensures JoinOn(p, sep) == p[0] + [sep] + p[1] + [sep] + p[2]
  {
    assert JoinOn(p[1..], sep) == p[1] + [sep] + JoinOn(p[1..][1..], sep) && p[1..][1..] == [p[2]];
    assert p[0] + [sep] + (p[1] + [sep] + p[2]) == p[0] + [sep] + p[1] + [sep] + p[2];
  }

  // ----- the request line ----------------------------------------------------------------------

  predicate StartsWith(s: Octets, text: string) { |text| <= |s| && IsText(s[..|text|], text) }

  lemma TextIs(s: Octets, word: Octets, text: string)
    requires IsText(word, text)
    ensures IsText(s, text) <==> s == word
    ensures StartsWith(s, text) <==> word <= s
  {
    if |text| <= |s| {
      assert IsText(s[..|text|], text) <==> s[..|text|] == word;
    }
  }

  lemma WordsAreText(s: Octets)
    ensures IsText(s, "CONNECT") <==> s == CONNECT
    ensures IsVersion(s) <==> s == HTTP_1_1 || s == HTTP_1_0
    ensures StartsWith(s, "http://") <==> HTTP_SCHEME <= s
    ensures StartsWith(s, "https://") <==> HTTPS_SCHEME <= s
  {
    assert IsText(CONNECT, "CONNECT") && IsText(HTTP_1_1, "HTTP/1.1") && IsText(HTTP_1_0, "HTTP/1.0");
    assert IsText(HTTP_SCHEME, "http://") && IsText(HTTPS_SCHEME, "https://");
    hide IsText, StartsWith;
    TextIs(s, CONNECT, "CONNECT");
    TextIs(s, HTTP_1_1, "HTTP/1.1");
    TextIs(s, HTTP_1_0, "HTTP/1.0");
    TextIs(s, HTTP_SCHEME, "http://");
    TextIs(s, HTTPS_SCHEME, "https://");
  }

  lemma AsciiWords(a: Octets, b: Octets, c: Octets)
    ensures IsAscii(a + [32] + b + [32] + c) <==> Ascii(a) && Ascii(b) && Ascii(c)
  {
    var s := a + [32] + b + [32] + c;
    if IsAscii(s) {
      forall x | x in a || x in b || x in c ensures x < 128 {
        assert x in s;
      }
    } else {
      var x :| x in s && x >= 128;
      assert x in a || x in b || x in c;
    }
  }

  /** Three ASCII words: what each verb and target is answered with, under either version. */
  lemma RequestLineVerdict(verb: Octets, target: Octets, version: Octets)
    requires 32 !in verb && 32 !in target && 32 !in version
    ensures ParseRequestLine(verb + [32] + target + [32] + version) ==
            if !Ascii(verb) || !Ascii(target) || !Ascii(version) || verb == [] || target == [] || !IsVersion(version)
                then Err(Malformed)
            else if IsText(verb, "CONNECT") then Ok(target)
            else if StartsWith(target, "http://") || StartsWith(target, "https://") then Err(AbsoluteFormUnsupported)
            else Err(MethodNotSupported(verb))
  {
    SplitOnThree(verb, target, version, 32);
    AsciiWords(verb, target, version);
    WordsAreText(verb);
    WordsAreText(target);
    WordsAreText(version);
    hide SplitOn, IsAscii, Ascii, IsText, StartsWith, IsVersion;
  }

  /** And a line of any other number of words is malformed. */
  lemma OtherwiseMalformed(line: Octets) returns (verb: Octets, target: Octets, version: Octets)
    requires ParseRequestLine(line) != Err(Malformed)
    ensures line == verb + [32] + target + [32] + version && 32 !in verb && 32 !in target && 32 !in version
  {
    hide IsAscii, SplitOn, JoinOn;
    var words := SplitOn(line, 32);
    JoinOfSplitOn(line, 32);
    JoinOnThree(words, 32);
    verb, target, version := words[0], words[1], words[2];
    assert verb in words && target in words && version in words;
  }

  // ----- header lines --------------------------------------------------------------------------

  lemma {:induction false} TrimStartOf(blanks: Octets, rest: Octets)
    requires Blanks(blanks)
    ensures TrimStart(blanks + rest) == TrimStart(rest)
    decreases |blanks|
  {
    if blanks == [] {
      assert blanks + rest == rest;
    } else {
      assert blanks[0] in blanks && (blanks + rest)[1..] == blanks[1..] + rest;
      assert forall b :: b in blanks[1..] ==> b in blanks;
      TrimStartOf(blanks[1..], rest);
    }
  }

  lemma {:induction false} TrimEndOf(rest: Octets, blanks: Octets)
    requires Blanks(blanks)
    ensures TrimEnd(rest + blanks) == TrimEnd(rest)
    decreases |blanks|
  {
    if blanks == [] {
      assert rest + blanks == rest;
    } else {
      var n := |blanks| - 1;
      assert blanks[n] in blanks && (rest + blanks)[..|rest| + n] == rest + blanks[..n];
      assert forall b :: b in blanks[..n] ==> b in blanks;
      TrimEndOf(rest, blanks[..n]);
    }
  }

  lemma TrimsTo(before: Octets, value: Octets, after: Octets)
    requires Blanks(before) && Blanks(after) && Bounded(value)
    ensures TrimEnd(TrimStart(before + value + after)) == value
  {
    assert before + value + after == before + (value + after);
    TrimStartOf(before, value + after);
    if value == [] {
      assert value + after == after && after + [] == after;
      TrimStartOf(after, []);
    } else {
      assert value[0] in value;
      assert value[|value| - 1] in value;
      TrimEndOf(value, after);
    }
  }

  lemma {:induction false} TrimStartSplits(s: Octets) returns (before: Octets)
    ensures Blanks(before) && s == before + TrimStart(s)
    ensures TrimStart(s) != [] ==> !IsBlank(TrimStart(s)[0])
    decreases |s|
  {
    before := [];
    if s != [] && IsBlank(s[0]) {
      var more := TrimStartSplits(s[1..]);
      before := [s[0]] + more;
    }
  }

  lemma {:induction false} TrimEndSplits(s: Octets) returns (after: Octets)
    ensures Blanks(after) && s == TrimEnd(s) + after
    ensures TrimEnd(s) != [] ==> !IsBlank(TrimEnd(s)[|TrimEnd(s)| - 1])
    decreases |s|
  {
    after := [];
    if s != [] && IsBlank(s[|s| - 1]) {
      var more := TrimEndSplits(s[..|s| - 1]);
      after := more + [s[|s| - 1]];
    }
  }

  lemma TokenIff(name: Octets)
    ensures IsToken(name) <==> name != [] && forall b :: b in name ==> TokenByte(b)
  {
    forall b | b in name ensures IsTchar(b) <==> TokenByte(b) {
      TcharIff(b);
    }
  }

  lemma SendableBytes(f: Field)
    requires Sendable(f)
    ensures 58 !in f.name && !HasControl(f.value) && IsToken(f.name)
    ensures 13 !in FieldLine(f) && 10 !in FieldLine(f) && !IsBlank(FieldLine(f)[0])
  {
    TokenIff(f.name);
    assert f.name[0] in f.name && FieldLine(f)[0] == f.name[0];
    forall x | x in FieldLine(f) ensures x != 13 && x != 10 {
      assert x in f.name || x == 58 || x in f.before || x in f.value || x in f.after;
    }
  }

  lemma FieldReadsBack(f: Field)
    requires Sendable(f)
    ensures ParseHeader(FieldLine(f)) == Ok(Header(f.name, f.value))
  {
    var line, tail := FieldLine(f), f.before + f.value + f.after;
    SendableBytes(f);
    FirstIndexOf(f.name, 58, tail);
    TrimsTo(f.before, f.value, f.after);
    hide FirstIndex, TrimStart, TrimEnd, IsToken, HasControl;
    assert line[..|f.name|] == f.name && line[|f.name| + 1..] == tail;
  }

  lemma FieldOf(line: Octets) returns (f: Field)
    requires ParseHeader(line).Ok?
    ensures Sendable(f) && line == FieldLine(f) && ParseHeader(line).value == Header(f.name, f.value)
  {
    var i := FirstIndex(line, 58);
    var tail := line[i + 1..];
    TokenIff(line[..i]);
    var before := TrimStartSplits(tail);
    var after := TrimEndSplits(TrimStart(tail));
    var value := TrimEnd(TrimStart(tail));
    f := Field(line[..i], before, value, after);
    hide FirstIndex, IsToken;
    assert line == line[..i] + [58] + tail && tail == before + value + after;
    ValueIsBounded(value, TrimStart(tail), after);
    hide TrimStart, TrimEnd;
  }

  lemma ValueIsBounded(value: Octets, trimmed: Octets, after: Octets)
    requires trimmed == value + after && (trimmed != [] ==> !IsBlank(trimmed[0]))
    requires (value != [] ==> !IsBlank(value[|value| - 1])) && !HasControl(value)
    ensures Bounded(value)
  {
    forall b | b in value ensures b >= 32 && b != 127 {}
    if value != [] {
      assert trimmed[0] == value[0];
    }
  }

  /** Header lines that are all in order are taken as they are, up to 64 of them, and are too many beyond that. */
  lemma {:induction false} FieldsReadBack(fields: seq<Field>, acc: seq<Header>)
    requires (forall f :: f in fields ==> Sendable(f)) && |acc| <= 64
    ensures ParseHeaders(FieldLines(fields), acc) ==
            if |acc| + |fields| <= 64 then Ok(acc + HeadersOf(fields)) else Err(TooManyHeaders)
    ensures forall l :: l in FieldLines(fields) ==> 13 !in l && l != []
    decreases |fields|
  {
    hide ParseHeader, FieldLine, Sendable, IsBlank;
    if fields == [] {
      assert acc + [] == acc;
    } else {
      var f, rest := fields[0], FieldLines(fields[1..]);
      assert f in fields;
      SendableBytes(f);
      FieldReadsBack(f);
      FieldLineIsSomething(f);
      var h := Header(f.name, f.value);
      assert ([FieldLine(f)] + rest)[1..] == rest;
      if |acc| < 64 {
        FieldsReadBack(fields[1..], acc + [h]);
        assert acc + [h] + HeadersOf(fields[1..]) == acc + ([h] + HeadersOf(fields[1..]));
      } else {
        FieldsReadBack(fields[1..], acc);
      }
    }
  }

  lemma FieldLineIsSomething(f: Field)
    ensures FieldLine(f) != []
  {
    assert FieldLine(f)[|f.name|] == 58;
  }

  lemma {:induction false} FieldsOf(lines: seq<Octets>, acc: seq<Header>) returns (fields: seq<Field>)
    requires ParseHeaders(lines, acc).Ok? && |acc| <= MAX_HEADER_COUNT
    ensures lines == FieldLines(fields) && ParseHeaders(lines, acc).value == acc + HeadersOf(fields)
    ensures |acc| + |fields| <= MAX_HEADER_COUNT && forall f :: f in fields ==> Sendable(f)
    decreases |lines|
  {
    hide ParseHeader, FieldLine, Sendable;
    fields := [];
    if lines == [] {
      assert acc + [] == acc;
    } else {
      var f := FieldOf(lines[0]);
      var h := Header(f.name, f.value);
      var more := FieldsOf(lines[1..], acc + [h]);
      fields := [f] + more;
      assert fields[1..] == more && lines == [lines[0]] + lines[1..];
      assert acc + [h] + HeadersOf(more) == acc + ([h] + HeadersOf(more));
    }
  }

  // ----- whole heads ---------------------------------------------------------------------------

  lemma RequestLineNoCrlf(verb: Octets, target: Octets, version: Octets)
    requires 13 !in verb && NoCrlf(target) && 13 !in version
    ensures NoCrlf(verb + [32] + target + [32] + version)
  {
    var s := verb + [32] + target + [32] + version;
    var n := |verb| + 1;
    forall i | 0 <= i < |s| - 1 ensures !(s[i] == 13 && s[i + 1] == 10) {
      if n <= i < n + |target| {
        assert s[i] == target[i - n] && s[i + 1] == (if i + 1 < n + |target| then target[i + 1 - n] else 32);
      } else if i < |verb| {
        assert s[i] == verb[i];
      } else if i > n + |target| {
        assert s[i] == version[i - (n + |target| + 1)];
      }
    }
  }

  lemma TargetNoCrlf(verb: Octets, target: Octets, version: Octets)
    requires NoCrlf(verb + [32] + target + [32] + version)
    ensures NoCrlf(target)
  {
    var s, n := verb + [32] + target + [32] + version, |verb| + 1;
    forall i | 0 <= i < |target| - 1 ensures !(target[i] == 13 && target[i + 1] == 10) {
      assert s[n + i] == target[i] && s[n + i + 1] == target[i + 1];
    }
  }

  lemma FixedWords(verb: Octets, version: Octets)
    requires IsText(verb, "CONNECT") && IsVersion(version)
    ensures 13 !in verb && 13 !in version && 32 !in verb && 32 !in version && Ascii(verb) && Ascii(version)
    ensures |verb| == 7 && verb[0] == 67
  {
    WordsAreText(verb);
    WordsAreText(version);
    hide IsText, IsVersion;
  }

  lemma LinesOf(s: Spoken)
    requires Speakable(s)
    ensures SplitCrlf(EncodeHead(s)) == [RequestLine(s)] + FieldLines(s.fields)
    ensures NoCrlf(RequestLine(s)) && RequestLine(s) != [] && RequestLine(s)[0] == 67
    ensures forall l :: l in FieldLines(s.fields) ==> 13 !in l && l != []
  {
    FixedWords(s.verb, s.version);
    RequestLineNoCrlf(s.verb, s.authority, s.version);
    FieldsReadBack(s.fields, []);
    assert RequestLine(s)[0] == s.verb[0];
    hide RequestLine, FieldLines, ParseHeaders;
    SplitOfJoin([RequestLine(s)] + FieldLines(s.fields));
  }

  /** Every request a client may send is parsed as the request it spells. */
  lemma HeadReadsBack(utf8: Octets -> bool, s: Spoken)
    requires Speakable(s) && utf8(EncodeHead(s))
    ensures ParseHead(utf8, EncodeHead(s)) == Ok(Spelled(s))
  {
    LinesOf(s);
    FixedWords(s.verb, s.version);
    RequestLineVerdict(s.verb, s.authority, s.version);
    FieldsReadBack(s.fields, []);
    HeadersOfAt(s.fields);
    AmbiguousIff(HeadersOf(s.fields));
    hide FieldLines, ParseRequestLine, ParseHeaders, SplitCrlf, EncodeHead, Ambiguous, HeadersOf, Unambiguous, IsText,
      IsVersion, NoCrlf;
    var lines := [RequestLine(s)] + FieldLines(s.fields);
    assert lines[1..] == FieldLines(s.fields) && [] + HeadersOf(s.fields) == HeadersOf(s.fields);
  }

  /** And every accepted head is one of those spellings. */
  lemma AcceptedIsSpoken(utf8: Octets -> bool, head: Octets) returns (s: Spoken)
    requires ParseHead(utf8, head).Ok?
    ensures Speakable(s) && head == EncodeHead(s) && ParseHead(utf8, head).value == Spelled(s)
  {
    var lines := SplitCrlf(head);
    JoinOfSplit(head);
    assert lines[0] in lines;
    var verb, target, version := OtherwiseMalformed(lines[0]);
    RequestLineVerdict(verb, target, version);
    TargetNoCrlf(verb, target, version);
    var fields := FieldsOf(lines[1..], []);
    s := Spoken(verb, target, version, fields);
    HeadersOfAt(fields);
    AmbiguousIff(HeadersOf(fields));
    hide FieldLines, ParseRequestLine, ParseHeaders, SplitCrlf, JoinCrlf, Ambiguous, HeadersOf, Unambiguous, IsText,
      StartsWith, NoCrlf;
    assert lines == [lines[0]] + lines[1..] && [] + HeadersOf(fields) == HeadersOf(fields);
  }

  /**
    The parser, exactly: a head is read as a request if and only if it is one of the spellings of that request, with
    any blanks around its values, under either version and with its names in any letter case.
   */
  lemma ParsedIff(utf8: Octets -> bool, head: Octets, r: Request)
    ensures ParseHead(utf8, head) == Ok(r) <==>
            utf8(head) && exists s: Spoken :: Speakable(s) && head == EncodeHead(s) && r == Spelled(s)
  {
    hide Speakable, EncodeHead, Spelled;
    if ParseHead(utf8, head) == Ok(r) {
      var s := AcceptedIsSpoken(utf8, head);
    }
    if utf8(head) {
      if s: Spoken :| Speakable(s) && head == EncodeHead(s) && r == Spelled(s) {
        hide ParseHead;
        HeadReadsBack(utf8, s);
      }
    }
  }
}
