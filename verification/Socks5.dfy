/**
  SOCKS5 negotiation (RFC 1928 sections 3 to 5, RFC 1929 section 2) as a function of the bytes the
  client sends, with the bytes consumed and the bytes answered; then as methods over a client stream.
  `capacity` is what the rate limiter answered for the peer.
 */
module Socks5 {
  import opened Wrappers
  import opened Bytes
  import opened Target
  import Limiter

  const VER_SOCKS5: Byte := 0x05
  const VER_USERPASS: Byte := 0x01
  const METHOD_NONE: Byte := 0x00
  const METHOD_USERPASS: Byte := 0x02
  const METHOD_UNACCEPTABLE: Byte := 0xFF
  const AUTH_OK: Byte := 0x00
  const AUTH_DENIED: Byte := 0x01
  const CMD_CONNECT: Byte := 0x01
  const ATYP_V4: Byte := 0x01
  const ATYP_DOMAIN: Byte := 0x03
  const ATYP_V6: Byte := 0x04

  datatype Config = Config(auth: AuthPolicy, hasV6: bool, parse: IpParser) {
    function OfferedMethod(): Byte { if auth.Required? then METHOD_USERPASS else METHOD_NONE }
  }

  datatype Socks5Error =
    | Io
    | BadVersion(version: Byte)
    | NoAcceptableMethod
    | BadAuthVersion(version: Byte)
    | AuthFailed
    | AuthRateLimited
    | EmptyMethodList
    | ReservedNotZero
    | UnknownAddressType
    | InvalidDestination
    | CommandNotSupported(command: Byte)
    | AddressTypeNotSupported

  type Result<T> = Wrappers.Result<T, Socks5Error>

  /** One stage of the exchange: its verdict, how many bytes it took, what it answered. */
  datatype Stage<T> = Stage(result: Result<T>, used: nat, output: Octets)

  function Short<T>(s: Octets): Stage<T> { Stage(Err(Io), |s|, []) }

  // ----- the stages ----------------------------------------------------------------------------

  function Greet(cfg: Config, s: Octets): Stage<()> {
    if |s| < 2 then Short(s)
    else
      var count: nat := s[1];
      if s[0] != VER_SOCKS5 then Stage(Err(BadVersion(s[0])), 2, [])
      else if count == 0 then Stage(Err(EmptyMethodList), 2, [])
      else if |s| < 2 + count then Short(s)
      else if cfg.OfferedMethod() !in s[2..2 + count] then
        Stage(Err(NoAcceptableMethod), 2 + count, [VER_SOCKS5, METHOD_UNACCEPTABLE])
      else Stage(Ok(()), 2 + count, [VER_SOCKS5, cfg.OfferedMethod()])
  }

  /** A length byte and that many more. */
  function LengthPrefixed(s: Octets): Option<Octets> {
    if |s| < 1 then None
    else
      var len: nat := s[0];
      if |s| < 1 + len then None else Some(s[1..1 + len])
  }

  function Authenticate(user: Octets, pass: Octets, capacity: bool, s: Octets): Stage<()> {
    if |s| < 1 then Short(s)
    else if s[0] != VER_USERPASS then Stage(Err(BadAuthVersion(s[0])), 1, [])
    else match LengthPrefixed(s[1..])
      case None => Short(s)
      case Some(u) => match LengthPrefixed(s[2 + |u|..])
        case None => Short(s)
        case Some(p) =>
          var used := 3 + |u| + |p|;
          if !capacity then Stage(Err(AuthRateLimited), used, [VER_USERPASS, AUTH_DENIED])
          else if u == user && p == pass then Stage(Ok(()), used, [VER_USERPASS, AUTH_OK])
          else Stage(Err(AuthFailed), used, [VER_USERPASS, AUTH_DENIED])
  }

  function FinishIp(cfg: Config, address: IpAddr, port: nat): Result<Target> {
    if address.V6? && !cfg.hasV6 then Err(AddressTypeNotSupported)
    else if port == 0 then Err(InvalidDestination)
    else Ok(Ip(address, port))
  }

  /** The three name checks in the source share one error; a NUL is also not printable. */
  predicate ValidHostname(raw: Octets) { 1 <= |raw| <= MAX_HOST_LEN && Printable(raw) }

  function DomainTarget(cfg: Config, raw: Octets, port: nat): Result<Target> {
    if !ValidHostname(raw) then Err(InvalidDestination)
    else match cfg.parse(raw)
      case Some(address) => FinishIp(cfg, address, port)
      case None => if port == 0 then Err(InvalidDestination) else Ok(Domain(raw, port))
  }

  function Port(a: Byte, b: Byte): nat { 256 * a + b }

  /** The address and port after the request head; `used` counts from here. */
  function ReadTarget(cfg: Config, atyp: Byte, s: Octets): (st: Stage<Target>)
    ensures st.output == []
  {
    if atyp == ATYP_V4 then
      if |s| < 6 then Short(s) else Stage(FinishIp(cfg, V4(s[..4]), Port(s[4], s[5])), 6, [])
    else if atyp == ATYP_V6 then
      if |s| < 18 then Short(s) else Stage(FinishIp(cfg, V6(s[..16]), Port(s[16], s[17])), 18, [])
    else if atyp == ATYP_DOMAIN then
      match LengthPrefixed(s)
      case None => Short(s)
      case Some(raw) =>
        var n := 1 + |raw|;
        if |s| < n + 2 then Short(s) else Stage(DomainTarget(cfg, raw, Port(s[n], s[n + 1])), n + 2, [])
    else Stage(Err(UnknownAddressType), 0, [])
  }

  /** The address is consumed before the command is judged, so the more specific error wins. */
  function ReadRequest(cfg: Config, s: Octets): Stage<Target> {
    if |s| < 4 then Short(s)
    else if s[0] != VER_SOCKS5 then Stage(Err(BadVersion(s[0])), 4, [])
    else if s[2] != 0 then Stage(Err(ReservedNotZero), 4, [])
    else
      var t := ReadTarget(cfg, s[3], s[4..]);
      if t.result.Ok? && s[1] != CMD_CONNECT then Stage(Err(CommandNotSupported(s[1])), 4 + t.used, [])
      else t.(used := 4 + t.used)
  }

  function ReplyFrame(code: Byte): Octets { [VER_SOCKS5, code, 0, ATYP_V4, 0, 0, 0, 0, 0, 0] }

  /** The reply a failed request gets; earlier stages answer for themselves, framing errors just close. */
  function ReplyFor(e: Socks5Error): Octets {
    match e
    case CommandNotSupported(_) => ReplyFrame(0x07)
    case AddressTypeNotSupported => ReplyFrame(0x08)
    case InvalidDestination => ReplyFrame(0x01)
    case _ => []
  }

  function Request(cfg: Config, s: Octets): Stage<Target> {
    var r := ReadRequest(cfg, s);
    if r.result.Err? then r.(output := ReplyFor(r.result.error)) else r
  }

  function Then<T, U>(a: Stage<T>, b: Stage<U>): Stage<U> {
    if a.result.Err? then Stage(Err(a.result.error), a.used, a.output)
    else Stage(b.result, a.used + b.used, a.output + b.output)
  }

  function After<T>(a: Stage<T>, s: Octets): Octets { if a.used <= |s| then s[a.used..] else [] }

  function Negotiate(cfg: Config, capacity: bool, s: Octets): Stage<Target> {
    var g := Greet(cfg, s);
    var s1 := After(g, s);
    match cfg.auth
    case Disabled => Then(g, Request(cfg, s1))
    case Required(user, pass) =>
      var a := Authenticate(user, pass, capacity, s1);
      Then(g, Then(a, Request(cfg, After(a, s1))))
  }

  /** Whether the exchange ended in a failure that was charged to the peer. */
  predicate Charged(cfg: Config, capacity: bool, s: Octets) {
    cfg.auth.Required? && Greet(cfg, s).result.Ok? &&
    Authenticate(cfg.auth.username, cfg.auth.password, capacity, After(Greet(cfg, s), s)).result == Err(AuthFailed)
  }

  // ----- the wire encodings --------------------------------------------------------------------

  datatype Destination = DestV4(octets: Octets) | DestV6(octets: Octets) | DestName(name: Octets)

  datatype Asked = Asked(command: Byte, destination: Destination, port: nat)

  /** What a client says, structured: RFC 1928 greeting and request, RFC 1929 credentials. */
  datatype Transcript = Transcript(methods: Octets, username: Octets, password: Octets, asked: Asked)

  predicate Methods(m: Octets) { 1 <= |m| <= 255 }

  predicate Field(f: Octets) { |f| <= 255 }

  predicate Askable(q: Asked) {
    && q.port < 65536
    && match q.destination
       case DestV4(o) => |o| == 4
       case DestV6(o) => |o| == 16
       case DestName(n) => Field(n)
  }

  predicate WellFormed(t: Transcript) {
    Methods(t.methods) && Field(t.username) && Field(t.password) && Askable(t.asked)
  }

  function EncodeGreeting(m: Octets): Octets
    requires Methods(m)
  {
    [0x05, |m|] + m
  }

  function EncodeAuth(u: Octets, p: Octets): Octets
    requires Field(u) && Field(p)
  {
    [0x01, |u|] + u + [|p|] + p
  }

  function EncodePort(port: nat): Octets
    requires port < 65536
  {
    [port / 256, port % 256]
  }

  function AddressType(d: Destination): Byte {
    match d
    case DestV4(_) => 0x01
    case DestV6(_) => 0x04
    case DestName(_) => 0x03
  }

  function EncodeAddress(d: Destination): Octets
    requires d.DestName? ==> Field(d.name)
  {
    match d
    case DestV4(o) => o
    case DestV6(o) => o
    case DestName(n) => [|n|] + n
  }

  function EncodeRequest(q: Asked): Octets
    requires Askable(q)
  {
    [0x05, q.command, 0x00, AddressType(q.destination)] + (EncodeAddress(q.destination) + EncodePort(q.port))
  }

  function Encode(cfg: Config, t: Transcript): Octets
    requires WellFormed(t)
  {
    EncodeGreeting(t.methods) +
    ((if cfg.auth.Required? then EncodeAuth(t.username, t.password) else []) + EncodeRequest(t.asked))
  }

  // ----- what a transcript means ---------------------------------------------------------------

  /** The address a destination is, or spells. */
  function SpelledAddress(cfg: Config, d: Destination): Option<IpAddr> {
    match d
    case DestV4(o) => Some(V4(o))
    case DestV6(o) => Some(V6(o))
    case DestName(n) => cfg.parse(n)
  }

  /** A name that may be handed to a resolver, or any address. */
  predicate Nameable(d: Destination) {
    d.DestName? ==> 1 <= |d.name| <= 255 && forall b :: b in d.name ==> 0x21 <= b <= 0x7e
  }

  /** What a client that asked for this is connected to, or why not: the first reason that applies. */
  function AskedMeaning(cfg: Config, q: Asked): Result<Target> {
    var spelled := SpelledAddress(cfg, q.destination);
    if !Nameable(q.destination) then Err(InvalidDestination)
    else if spelled.Some? && spelled.value.V6? && !cfg.hasV6 then Err(AddressTypeNotSupported)
    else if q.port == 0 then Err(InvalidDestination)
    else if q.command != 0x01 then Err(CommandNotSupported(q.command))
    else Ok(if spelled.Some? then Ip(spelled.value, q.port) else Domain(q.destination.name, q.port))
  }

  /** The verdict on a transcript, without any bytes. */
  function Meaning(cfg: Config, capacity: bool, t: Transcript): Result<Target> {
    if (if cfg.auth.Required? then 0x02 else 0x00) !in t.methods then Err(NoAcceptableMethod)
    else if cfg.auth.Required? && !capacity then Err(AuthRateLimited)
    else if cfg.auth.Required? && !(t.username == cfg.auth.username
        && t.password == cfg.auth.password) then Err(AuthFailed)
    else AskedMeaning(cfg, t.asked)
  }

  /** How far into its own bytes a transcript is read before the verdict falls. */
  function Consumed(cfg: Config, capacity: bool, t: Transcript): nat
    requires WellFormed(t)
  {
    var greeting := |EncodeGreeting(t.methods)|;
    var e := Meaning(cfg, capacity, t);
    if e == Err(NoAcceptableMethod) then greeting
    else if e == Err(AuthRateLimited) || e == Err(AuthFailed) then greeting + |EncodeAuth(t.username, t.password)|
    else |Encode(cfg, t)|
  }

  /** What the client is told meanwhile, as the two RFCs lay it out. */
  function Dialogue(cfg: Config, capacity: bool, t: Transcript): Octets {
    var e := Meaning(cfg, capacity, t);
    if e == Err(NoAcceptableMethod) then [0x05, 0xFF]
    else
      var chosen: Octets := if cfg.auth.Required? then [0x05, 0x02] else [0x05, 0x00];
      if e == Err(AuthRateLimited) || e == Err(AuthFailed) then chosen + [0x01, 0x01]
      else
        chosen + ((if cfg.auth.Required? then [0x01, 0x00] else []) +
        (if e == Err(AddressTypeNotSupported) then [0x05, 0x08, 0, 1, 0, 0, 0, 0, 0, 0]
         else if e == Err(InvalidDestination) then [0x05, 0x01, 0, 1, 0, 0, 0, 0, 0, 0]
         else if e.Err? then [0x05, 0x07, 0, 1, 0, 0, 0, 0, 0, 0]
         else []))
  }

  lemma GreetDecodes(cfg: Config, m: Octets, rest: Octets)
    requires Methods(m)
    ensures var s := EncodeGreeting(m) + rest;
            var g := Greet(cfg, s);
            && g.used == |EncodeGreeting(m)| && After(g, s) == rest
            && g.result == (if cfg.OfferedMethod() in m then Ok(()) else Err(NoAcceptableMethod))
            && g.output == (if cfg.OfferedMethod() !in m then [0x05, 0xFF]
               else if cfg.auth.Required? then [0x05, 0x02] else [0x05, 0x00])
  {
  }

  lemma AuthDecodes(user: Octets, pass: Octets, capacity: bool, u: Octets, p: Octets, rest: Octets)
    requires Field(u) && Field(p)
    ensures var s := EncodeAuth(u, p) + rest;
            var a := Authenticate(user, pass, capacity, s);
            && a.used == |EncodeAuth(u, p)| && After(a, s) == rest
            && a.result == (if !capacity then Err(AuthRateLimited)
                            else if u == user && p == pass then Ok(()) else Err(AuthFailed))
            && a.output == [0x01, if a.result.Ok? then 0x00 else 0x01]
  {
    var s := EncodeAuth(u, p) + rest;
    assert s[1..] == [|u|] + u + [|p|] + p + rest;
    assert s[1..][1..1 + |u|] == u && s[1..][0] == |u|;
    assert s[2 + |u|..] == [|p|] + p + rest;
    assert s[2 + |u|..][1..1 + |p|] == p;
  }

  lemma PortDecodes(port: nat)
    requires port < 65536
    ensures Port(EncodePort(port)[0], EncodePort(port)[1]) == port
  {
  }

  lemma TargetDecodes(cfg: Config, q: Asked, rest: Octets)
    requires Askable(q)
    ensures var r := ReadTarget(cfg, AddressType(q.destination),
        EncodeAddress(q.destination) + EncodePort(q.port) + rest);
            && 4 + r.used == |EncodeRequest(q)|
            && AskedMeaning(cfg, q) == if r.result.Ok? && q.command != CMD_CONNECT
               then Err(CommandNotSupported(q.command)) else r.result
  {
    var p := EncodePort(q.port);
    var s := EncodeAddress(q.destination) + p + rest;
    PortDecodes(q.port);
    match q.destination
    case DestV4(o) =>
      assert s[..4] == o;
    case DestV6(o) =>
      assert s[..16] == o;
    case DestName(n) =>
      assert s[1..1 + |n|] == n;
  }

  lemma RequestDecodes(cfg: Config, q: Asked, rest: Octets)
    requires Askable(q)
    ensures var r := Request(cfg, EncodeRequest(q) + rest);
            && r.used == |EncodeRequest(q)| && r.result == AskedMeaning(cfg, q)
            && r.output == (if r.result.Err? then ReplyFor(r.result.error) else [])
  {
    TargetDecodes(cfg, q, rest);
    hide ReadTarget, AskedMeaning;
    var s := EncodeRequest(q) + rest;
    assert s[4..] == EncodeAddress(q.destination) + EncodePort(q.port) + rest;
  }

  /** A well-formed request is refused for one of three reasons only. */
  lemma AskedErrors(cfg: Config, q: Asked)
    ensures var r := AskedMeaning(cfg, q);
            r.Err? ==> r.error in {InvalidDestination, AddressTypeNotSupported, CommandNotSupported(q.command)}
  {
  }

  /**
    Decoding inverts the encodings: for every well-formed transcript and whatever follows it on the wire,
    the verdict is the transcript's meaning, the bytes consumed are those up to where the verdict falls,
    the whole encoding and no more when it is accepted, and the answers are the ones the RFCs lay out.
   */
  lemma NegotiateDecodes(cfg: Config, capacity: bool, t: Transcript, rest: Octets)
    requires WellFormed(t)
    ensures var n := Negotiate(cfg, capacity, Encode(cfg, t) + rest);
            n == Stage(Meaning(cfg, capacity, t), Consumed(cfg, capacity, t), Dialogue(cfg, capacity, t))
  {
    AskedErrors(cfg, t.asked);
    hide Greet, Authenticate, Request, EncodeGreeting, EncodeAuth, EncodeRequest, AskedMeaning;
    var g, r := EncodeGreeting(t.methods), EncodeRequest(t.asked);
    if cfg.auth.Required? {
      var a := EncodeAuth(t.username, t.password);
      assert Encode(cfg, t) + rest == g + (a + (r + rest));
      GreetDecodes(cfg, t.methods, a + (r + rest));
      AuthDecodes(cfg.auth.username, cfg.auth.password, capacity, t.username, t.password, r + rest);
    } else {
      assert Encode(cfg, t) + rest == g + (r + rest);
      GreetDecodes(cfg, t.methods, r + rest);
    }
    RequestDecodes(cfg, t.asked, rest);
  }

  /** The destination asked for, as a target: an address as it is, a name as the address it spells or as itself. */
  predicate AsAsked(cfg: Config, q: Asked, target: Target) {
    match q.destination
    case DestV4(o) => target == Ip(V4(o), q.port)
    case DestV6(o) => target == Ip(V6(o), q.port)
    case DestName(n) =>
      match cfg.parse(n)
      case Some(address) => target == Ip(address, q.port)
      case None => target == Domain(n, q.port)
  }

  /**
    Acceptance on the wire, exactly. A transcript sent as bytes is answered with this target if and only if the method
    this proxy wants was offered, the credentials are the configured pair and there was capacity, where they are asked
    for, the command is CONNECT to a nonzero port, a name is 1 to 255 printable ASCII bytes, the target is what was
    asked for, and it is IPv6 only through a tunnel that has it.
   */
  lemma AcceptedIff(cfg: Config, capacity: bool, t: Transcript, rest: Octets, target: Target)
    requires WellFormed(t)
    ensures Negotiate(cfg, capacity, Encode(cfg, t) + rest).result == Ok(target) <==>
              && (cfg.auth.Disabled? ==> 0x00 in t.methods)
              && (cfg.auth.Required? ==>
                    0x02 in t.methods && capacity && cfg.auth == Required(t.username, t.password))
              && t.asked.command == 0x01 && t.asked.port != 0
              && (t.asked.destination.DestName? ==>
                    var n := t.asked.destination.name; 1 <= |n| <= 255 && forall b :: b in n ==> 0x21 <= b <= 0x7e)
              && AsAsked(cfg, t.asked, target)
              && (target.Ip? && target.address.V6? ==> cfg.hasV6)
  {
    hide Negotiate, Encode, Consumed, Dialogue;
    NegotiateDecodes(cfg, capacity, t, rest);
  }

  // ----- nothing else is accepted --------------------------------------------------------------

  lemma GreetEncodes(cfg: Config, s: Octets) returns (m: Octets)
    requires Greet(cfg, s).result.Ok?
    ensures Methods(m) && cfg.OfferedMethod() in m
    ensures s == EncodeGreeting(m) + After(Greet(cfg, s), s)
  {
    m := s[2..2 + s[1] as int];
  }

  lemma AuthEncodes(user: Octets, pass: Octets, capacity: bool, s: Octets)
    requires Authenticate(user, pass, capacity, s).result.Ok?
    ensures capacity && Field(user) && Field(pass)
    ensures s == EncodeAuth(user, pass) + After(Authenticate(user, pass, capacity, s), s)
  {
  }

  lemma TargetEncodes(cfg: Config, atyp: Byte, s: Octets) returns (d: Destination, port: nat)
    requires ReadTarget(cfg, atyp, s).result.Ok?
    ensures Askable(Asked(CMD_CONNECT, d, port)) && AddressType(d) == atyp
    ensures s == EncodeAddress(d) + EncodePort(port) + After(ReadTarget(cfg, atyp, s), s)
  {
    var n := if atyp == ATYP_V4 then 4 else if atyp == ATYP_V6 then 16 else 1 + |LengthPrefixed(s).value|;
    port := Port(s[n], s[n + 1]);
    d := if atyp == ATYP_V4 then DestV4(s[..4]) else if atyp == ATYP_V6 then DestV6(s[..16])
         else DestName(LengthPrefixed(s).value);
    assert EncodePort(port) == [s[n], s[n + 1]];
    assert EncodeAddress(d) == s[..n];
    assert s == s[..n] + [s[n], s[n + 1]] + s[n + 2..];
  }

  lemma RequestEncodes(cfg: Config, s: Octets) returns (q: Asked)
    requires Request(cfg, s).result.Ok?
    ensures Askable(q) && s == EncodeRequest(q) + After(Request(cfg, s), s)
  {
    hide EncodePort, EncodeAddress, AddressType;
    assert s == [s[0], s[1], s[2], s[3]] + s[4..];
    var d, port := TargetEncodes(cfg, s[3], s[4..]);
    hide ReadTarget;
    q := Asked(CMD_CONNECT, d, port);
    var t := ReadTarget(cfg, s[3], s[4..]);
    assert t.used <= |s[4..]| ==> s[4..][t.used..] == s[4 + t.used..];
  }

  lemma Regroup(g: Octets, a: Octets, r: Octets, rest: Octets)
    ensures g + (a + (r + rest)) == g + (a + r) + rest
  {
  }

  /**
    The converse: every accepted byte stream begins with the encoding of a transcript that means the
    returned target, and exactly that encoding is consumed. With authentication required, its
    credentials are the configured pair and the limiter had capacity.
   */
  lemma AcceptedIsEncoded(cfg: Config, capacity: bool, s: Octets) returns (t: Transcript)
    requires Negotiate(cfg, capacity, s).result.Ok?
    ensures WellFormed(t)
    ensures var n := Negotiate(cfg, capacity, s);
            && n.used == |Encode(cfg, t)| <= |s| && s[..n.used] == Encode(cfg, t)
            && Meaning(cfg, capacity, t) == n.result
    ensures cfg.auth.Required? ==> capacity && t.username == cfg.auth.username && t.password == cfg.auth.password
  {
    hide Greet, Authenticate, Request, EncodeGreeting, EncodeAuth, EncodeRequest, AskedMeaning, Askable;
    var m := GreetEncodes(cfg, s);
    var s1 := After(Greet(cfg, s), s);
    if cfg.auth.Required? {
      var u, p := cfg.auth.username, cfg.auth.password;
      AuthEncodes(u, p, capacity, s1);
      var s2 := After(Authenticate(u, p, capacity, s1), s1);
      var q := RequestEncodes(cfg, s2);
      t := Transcript(m, u, p, q);
      var rest := After(Request(cfg, s2), s2);
      Regroup(EncodeGreeting(m), EncodeAuth(u, p), EncodeRequest(q), rest);
      assert s == Encode(cfg, t) + rest;
      hide Encode;
      NegotiateDecodes(cfg, capacity, t, rest);
    } else {
      var q := RequestEncodes(cfg, s1);
      t := Transcript(m, [], [], q);
      var rest := After(Request(cfg, s1), s1);
      Regroup(EncodeGreeting(m), [], EncodeRequest(q), rest);
      assert [] + (EncodeRequest(q) + rest) == EncodeRequest(q) + rest;
      assert s == Encode(cfg, t) + rest;
      hide Encode;
      NegotiateDecodes(cfg, capacity, t, rest);
    }
  }

  lemma AskedIsDialable(cfg: Config, q: Asked)
    requires Askable(q)
    ensures var r := AskedMeaning(cfg, q);
            r.Ok? ==> Dialable(r.value, cfg.hasV6, cfg.parse)
  {
  }

  /** Every target handed to the dialer keeps the promise both front ends make. */
  lemma TargetsAreDialable(cfg: Config, capacity: bool, s: Octets)
    ensures var r := Negotiate(cfg, capacity, s).result;
            r.Ok? ==> Dialable(r.value, cfg.hasV6, cfg.parse)
  {
    hide Negotiate, Encode, AskedMeaning, Dialable;
    if Negotiate(cfg, capacity, s).result.Ok? {
      var t := AcceptedIsEncoded(cfg, capacity, s);
      AskedIsDialable(cfg, t.asked);
    }
  }

  /** With authentication required, only a peer with capacity gets through, or gets charged. */
  lemma CapacityComesFirst(cfg: Config, capacity: bool, s: Octets)
    ensures cfg.auth.Required? && Negotiate(cfg, capacity, s).result.Ok? ==> capacity
    ensures Charged(cfg, capacity, s) ==>
              cfg.auth.Required? && capacity && Negotiate(cfg, capacity, s).result == Err(AuthFailed)
  {
  }

  lemma GreetingNamesNoPair(cfg: Config, s: Octets)
    ensures Greet(cfg, s).result != Err(AuthFailed)
  {
  }

  lemma RequestNamesNoPair(cfg: Config, s: Octets)
    ensures Request(cfg, s).result != Err(AuthFailed)
  {
  }

  /** The exchange ends in a wrong pair exactly when a failure is charged. */
  lemma ChargedIff(cfg: Config, capacity: bool, s: Octets)
    ensures Charged(cfg, capacity, s) <==> Negotiate(cfg, capacity, s).result == Err(AuthFailed)
  {
    hide Greet, Authenticate, Request, After;
    var g := Greet(cfg, s);
    var s1 := After(g, s);
    GreetingNamesNoPair(cfg, s);
    RequestNamesNoPair(cfg, s1);
    if cfg.auth.Required? {
      RequestNamesNoPair(cfg, After(Authenticate(cfg.auth.username, cfg.auth.password, capacity, s1), s1));
    }
  }

  // ----- the exchange as it runs ---------------------------------------------------------------

  /** A client connection: what it will send, how far it has been read, what it has been sent. */
  class Client {
    const input: Octets
    var pos: nat
    var output: Octets

    constructor (input: Octets)
      ensures this.input == input && pos == 0 && output == []
    {
      this.input := input;
      pos := 0;
      output := [];
    }

    ghost predicate Valid()
      reads this
    {
      pos <= |input|
    }

    ghost function Rest(): Octets
      requires Valid()
      reads this
    {
      input[pos..]
    }

    /** `read_exact`: packet boundaries are invisible; a short stream is an error. */
    method ReadExact(n: nat) returns (r: Option<Octets>)
      requires Valid()
      modifies this`pos
      ensures Valid()
      ensures n <= |old(Rest())| ==> r == Some(old(Rest())[..n]) && pos == old(pos) + n
      ensures n > |old(Rest())| ==> r == None && pos == |input|
    {
      if pos + n <= |input| {
        assert input[pos..][..n] == input[pos..pos + n];
        r := Some(input[pos..pos + n]);
        pos := pos + n;
      } else {
        r := None;
        pos := |input|;
      }
    }

    method WriteAll(bytes: Octets)
      modifies this`output
      ensures output == old(output) + bytes
    {
      output := output + bytes;
    }

    /** What a stage left behind, as its specification says. */
    twostate predicate Did<T(!new)>(st: Stage<T>)
      reads this
    {
      pos == old(pos) + st.used && output == old(output) + st.output
    }

    method DoGreet(cfg: Config) returns (r: Result<()>)
      requires Valid()
      modifies this
      ensures Valid() && r == Greet(cfg, old(Rest())).result && Did(Greet(cfg, old(Rest())))
    {
      var head := ReadExact(2);
      if head.None? {
        return Err(Io);
      }
      if head.value[0] != VER_SOCKS5 {
        return Err(BadVersion(head.value[0]));
      }
      var count: nat := head.value[1];
      if count == 0 {
        return Err(EmptyMethodList);
      }
      var methods := ReadExact(count);
      if methods.None? {
        return Err(Io);
      }
      assert methods.value == old(Rest())[2..2 + count];
      var wanted := cfg.OfferedMethod();
      if wanted !in methods.value {
        WriteAll([VER_SOCKS5, METHOD_UNACCEPTABLE]);
        return Err(NoAcceptableMethod);
      }
      WriteAll([VER_SOCKS5, wanted]);
      r := Ok(());
    }

    method ReadLengthPrefixed() returns (r: Option<Octets>)
      requires Valid()
      modifies this`pos
      ensures Valid() && r == LengthPrefixed(old(Rest()))
      ensures pos == if r.Some? then old(pos) + 1 + |r.value| else |input|
    {
      var len := ReadExact(1);
      if len.None? {
        return None;
      }
      r := ReadExact(len.value[0]);
      assert r.Some? ==> r.value == old(Rest())[1..1 + |r.value|];
    }

    /** The address, then the port, then the destination checks. */
    method DoReadTarget(cfg: Config, atyp: Byte) returns (r: Result<Target>)
      requires Valid()
      modifies this`pos
      ensures Valid() && r == ReadTarget(cfg, atyp, old(Rest())).result
      ensures pos == old(pos) + ReadTarget(cfg, atyp, old(Rest())).used
    {
      if atyp != ATYP_V4 && atyp != ATYP_V6 && atyp != ATYP_DOMAIN {
        return Err(UnknownAddressType);
      }
      var raw: Option<Octets>;
      if atyp == ATYP_DOMAIN {
        raw := ReadLengthPrefixed();
      } else {
        raw := ReadExact(if atyp == ATYP_V4 then 4 else 16);
      }
      if raw.None? {
        return Err(Io);
      }
      ghost var n := pos - old(pos);
      var port := ReadExact(2);
      if port.None? {
        return Err(Io);
      }
      assert port.value[0] == old(Rest())[n] && port.value[1] == old(Rest())[n + 1];
      var number := Port(port.value[0], port.value[1]);
      r := if atyp == ATYP_V4 then FinishIp(cfg, V4(raw.value), number)
           else if atyp == ATYP_V6 then FinishIp(cfg, V6(raw.value), number)
           else DomainTarget(cfg, raw.value, number);
    }

    method DoRequest(cfg: Config) returns (r: Result<Target>)
      requires Valid()
      modifies this
      ensures Valid() && r == Request(cfg, old(Rest())).result && Did(Request(cfg, old(Rest())))
    {
      hide ReadTarget;
      var head := ReadExact(4);
      if head.None? {
        return Err(Io);
      }
      var h := head.value;
      if h[0] != VER_SOCKS5 {
        return Err(BadVersion(h[0]));
      }
      if h[2] != 0 {
        return Err(ReservedNotZero);
      }
      assert Rest() == old(Rest())[4..];
      r := DoReadTarget(cfg, h[3]);
      if r.Ok? && h[1] != CMD_CONNECT {
        r := Err(CommandNotSupported(h[1]));
      }
      if r.Err? {
        WriteAll(ReplyFor(r.error));
      }
    }
  }

  /** One authentication attempt: asks the limiter, compares, and charges a wrong pair to the peer. */
  method DoAuthenticate(client: Client, user: Octets, pass: Octets, limiter: Limiter.AuthRateLimiter,
      peer: Limiter.Peer, asked: real, failed: real)
    returns (r: Result<()>, ghost call: Option<Limiter.Call>)
    requires client.Valid()
    modifies client, limiter
    ensures var st := Authenticate(user, pass, old(Limiter.HasCapacity(limiter.buckets, peer, asked)),
        old(client.Rest()));
            && client.Valid() && r == st.result
            && client.pos == old(client.pos) + st.used && client.output == old(client.output) + st.output
    ensures call.Some? <==> r == Err(AuthFailed)
    ensures call.None? ==> limiter.buckets == old(limiter.buckets)
    ensures call.Some? ==>
              && call.value.Failed? && call.value.peer == peer && call.value.now == failed
              && Limiter.Legal(old(limiter.buckets), call.value)
              && limiter.buckets == Limiter.Next(old(limiter.buckets), call.value)
              && old(Limiter.HasCapacity(limiter.buckets, peer, asked))
  {
    hide Limiter.Legal, Limiter.Next, Limiter.HasCapacity;
    call := None;
    var version := client.ReadExact(1);
    if version.None? {
      return Err(Io), None;
    }
    if version.value[0] != VER_USERPASS {
      return Err(BadAuthVersion(version.value[0])), None;
    }
    assert client.Rest() == old(client.Rest())[1..];
    var username := client.ReadLengthPrefixed();
    if username.None? {
      return Err(Io), None;
    }
    assert client.Rest() == old(client.Rest())[2 + |username.value|..];
    var password := client.ReadLengthPrefixed();
    if password.None? {
      return Err(Io), None;
    }
    var capacity := limiter.HasCapacityAt(peer, asked);
    if !capacity {
      client.WriteAll([VER_USERPASS, AUTH_DENIED]);
      return Err(AuthRateLimited), None;
    }
    if username.value == user && password.value == pass {
      client.WriteAll([VER_USERPASS, AUTH_OK]);
      return Ok(()), None;
    }
    ghost var c := limiter.RecordFailureAt(peer, failed);
    client.WriteAll([VER_USERPASS, AUTH_DENIED]);
    return Err(AuthFailed), Some(c);
  }

  /**
    The whole negotiation: its verdict, the bytes consumed and the bytes answered are the
    specification's, and a failure is charged to the peer exactly when the specification says so.
   */
  method DoNegotiate(client: Client, cfg: Config, limiter: Limiter.AuthRateLimiter, peer: Limiter.Peer,
      asked: real, failed: real)
    returns (r: Result<Target>, ghost call: Option<Limiter.Call>)
    requires client.Valid()
    modifies client, limiter
    ensures var capacity := old(Limiter.HasCapacity(limiter.buckets, peer, asked));
            var st := Negotiate(cfg, capacity, old(client.Rest()));
            && client.Valid() && r == st.result
            && client.pos == old(client.pos) + st.used && client.output == old(client.output) + st.output
            && (call.Some? <==> Charged(cfg, capacity, old(client.Rest())))
    ensures call.None? ==> limiter.buckets == old(limiter.buckets)
    ensures call.Some? ==>
              && call.value.Failed? && call.value.peer == peer && call.value.now == failed
              && Limiter.Legal(old(limiter.buckets), call.value)
              && limiter.buckets == Limiter.Next(old(limiter.buckets), call.value)
  {
    hide Greet, Authenticate, Request, Limiter.Legal, Limiter.Next, Limiter.HasCapacity;
    ghost var s := client.Rest();
    ghost var capacity := Limiter.HasCapacity(limiter.buckets, peer, asked);
    ghost var g, st := Greet(cfg, s), Negotiate(cfg, capacity, s);
    ghost var s1 := After(g, s);
    assert g.result.Err? ==> st == Stage(Err(g.result.error), g.used, g.output) && !Charged(cfg, capacity, s);
    var greeted := client.DoGreet(cfg);
    if greeted.Err? {
      return Err(greeted.error), None;
    }
    assert client.Rest() == s1;
    if cfg.auth.Disabled? {
      assert st == Then(g, Request(cfg, s1)) && !Charged(cfg, capacity, s);
      hide Negotiate, Charged;
      r := client.DoRequest(cfg);
      return r, None;
    }
    ghost var a := Authenticate(cfg.auth.username, cfg.auth.password, capacity, s1);
    ghost var s2 := After(a, s1);
    assert st == Then(g, Then(a, Request(cfg, s2))) && (Charged(cfg, capacity, s) <==> a.result == Err(AuthFailed));
    hide Negotiate, Charged;
    var authed, c := DoAuthenticate(client, cfg.auth.username, cfg.auth.password, limiter, peer, asked, failed);
    if authed.Err? {
      return Err(authed.error), c;
    }
    assert client.Rest() == s2;
    r := client.DoRequest(cfg);
    return r, None;
  }
}
