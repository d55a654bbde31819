/**
  The HTTP CONNECT front end after its head has been read: the authority becomes a target without ever
  being resolved, and proxy credentials go through the same limiter as SOCKS5. Base64 and textual
  address parsing are parameters.
 */
module HttpConnect {
  import opened Wrappers
  import opened Bytes
  import opened Target
  import Limiter

  const COLON: Byte := 58
  const OPEN: Byte := 91
  const CLOSE: Byte := 93

  datatype HttpError =
    | Malformed
    | HeadTooLarge
    | TooManyHeaders
    | AbsoluteFormUnsupported
    | MethodNotSupported(name: Octets)
    | InvalidDestination
    | Ipv6Unsupported
    | AuthRequired
    | AuthRateLimited
    | AuthFailed

  type Result<T> = Wrappers.Result<T, HttpError>

  // ----- ports ---------------------------------------------------------------------------------

  predicate IsDigit(b: Byte) { 48 <= b <= 57 }

  function Decimal(raw: Octets): nat
    requires forall b :: b in raw ==> IsDigit(b)
  {
    if raw == [] then 0
    else
      var last: int := raw[|raw| - 1];
      assert IsDigit(raw[|raw| - 1]);
      10 * Decimal(raw[..|raw| - 1]) + (last - 48)
  }

  predicate Digits(raw: Octets) { 1 <= |raw| <= 5 && forall b :: b in raw ==> IsDigit(b) }

  function ParsePort(raw: Octets): Result<nat> {
    if !Digits(raw) || Decimal(raw) > 65535 || Decimal(raw) == 0 then Err(InvalidDestination) else Ok(Decimal(raw))
  }

  function Render(n: nat): (r: Octets)
    ensures r != [] && forall b :: b in r ==> IsDigit(b)
  {
    if n < 10 then [48 + n] else Render(n / 10) + [48 + n % 10]
  }

  lemma {:induction false} DecimalOfRender(n: nat)
    ensures Decimal(Render(n)) == n
  {
    if n < 10 {
      var r := Render(n);
      assert r[..|r| - 1] == [];
    } else {
      DecimalOfRender(n / 10);
      var r := Render(n);
      assert r[..|r| - 1] == Render(n / 10);
    }
  }

  lemma {:induction false} RenderLength(n: nat, k: nat)
    requires k >= 1 && n < Power10(k)
    ensures |Render(n)| <= k
  {
    if n >= 10 {
      RenderLength(n / 10, k - 1);
    }
  }

  function Power10(k: nat): nat { if k == 0 then 1 else 10 * Power10(k - 1) }

  /** Every port is read back from its decimal spelling; zero and anything past 65535 are refused. */
  lemma PortDecodes(port: nat)
    ensures ParsePort(Render(port)) == if 1 <= port <= 65535 then Ok(port) else Err(InvalidDestination)
  {
    DecimalOfRender(port);
    if port < 100000 {
      assert Power10(5) == 100000;
      RenderLength(port, 5);
    }
  }

  // ----- the authority -------------------------------------------------------------------------

  datatype Config = Config(hasV6: bool, parse: IpParser, parseV6: Octets -> Option<Octets>)

  /** Where the last `b` is, or `|s|` when there is none. */
  function LastIndex(s: Octets, b: Byte): (i: nat)
    ensures i <= |s| && (i == |s| <==> b !in s) && (i < |s| ==> s[i] == b && b !in s[i + 1..])
  {
    if s == [] then 0
    else if b in s[1..] then
      assert s == [s[0]] + s[1..];
      var i := 1 + LastIndex(s[1..], b);
      assert s[i + 1..] == s[1..][i..];
      i
    else
      assert s == [s[0]] + s[1..];
      if s[0] == b then 0 else |s|
  }

  function IpTarget(cfg: Config, address: IpAddr, port: nat): Result<Target> {
    if address.V6? && !cfg.hasV6 then Err(Ipv6Unsupported) else Ok(Ip(address, port))
  }

  predicate ValidHost(host: Octets) { 1 <= |host| <= MAX_HOST_LEN && Printable(host) }

  function HostTarget(cfg: Config, host: Octets, port: nat): Result<Target> {
    match cfg.parse(host)
    case Some(address) => IpTarget(cfg, address, port)
    case None => Ok(Domain(host, port))
  }

  /** `[v6]:port`, after the bracket. */
  function FromBracket(cfg: Config, rest: Octets): Result<Target> {
    var i := FirstIndex(rest, CLOSE);
    if i == |rest| then Err(InvalidDestination)
    else
      var tail := rest[i + 1..];
      if tail == [] || tail[0] != COLON then Err(InvalidDestination)
      else match cfg.parseV6(rest[..i])
        case None => Err(InvalidDestination)
        case Some(octets) => match ParsePort(tail[1..])
          case Err(e) => Err(e)
          case Ok(port) => IpTarget(cfg, V6(octets), port)
  }

  function TargetFromAuthority(cfg: Config, authority: Octets): Result<Target> {
    if authority != [] && authority[0] == OPEN then FromBracket(cfg, authority[1..])
    else
      var i := LastIndex(authority, COLON);
      if i == |authority| then Err(InvalidDestination)
      else
        var host := authority[..i];
        if COLON in host then Err(InvalidDestination)
        else match ParsePort(authority[i + 1..])
          case Err(e) => Err(e)
          case Ok(port) => if !ValidHost(host) then Err(InvalidDestination) else HostTarget(cfg, host, port)
  }

  /** A destination is refused for one of two reasons only. */
  lemma TargetErrors(cfg: Config, authority: Octets)
    ensures var r := TargetFromAuthority(cfg, authority);
            r.Err? ==> r.error in {InvalidDestination, Ipv6Unsupported}
  {
  }

  /** The HTTP half of the promise both front ends make. */
  lemma TargetsAreDialable(cfg: Config, authority: Octets)
    ensures var r := TargetFromAuthority(cfg, authority);
            r.Ok? ==> Dialable(r.value, cfg.hasV6, cfg.parse)
  {
  }

  lemma {:induction false} LastIndexOf(a: Octets, b: Byte, c: Octets)
    requires b !in c
    ensures LastIndex(a + [b] + c, b) == |a|
    decreases |a|
  {
    var s := a + [b] + c;
    if a == [] {
      assert s[1..] == c;
    } else {
      assert s[1..] == a[1..] + [b] + c;
      assert s[1..][|a| - 1] == b;
      LastIndexOf(a[1..], b, c);
    }
  }

  /** `host:port` in, that host and that port out, for every spelling of the port. */
  lemma AuthorityDecodes(cfg: Config, host: Octets, port: Octets)
    requires ValidHost(host) && host[0] != OPEN && COLON !in host && ParsePort(port).Ok?
    ensures TargetFromAuthority(cfg, host + [COLON] + port) == HostTarget(cfg, host, ParsePort(port).value)
  {
    var a := host + [COLON] + port;
    assert COLON !in port by {
      assert forall b :: b in port ==> IsDigit(b);
    }
    LastIndexOf(host, COLON, port);
    assert a[..|host|] == host && a[|host| + 1..] == port;
  }

  /** `[v6]:port` in, that address and that port out, if the tunnel carries IPv6. */
  lemma BracketDecodes(cfg: Config, inside: Octets, port: Octets)
    requires CLOSE !in inside && cfg.parseV6(inside).Some? && ParsePort(port).Ok?
    ensures TargetFromAuthority(cfg, [OPEN] + (inside + [CLOSE] + ([COLON] + port))) ==
            if cfg.hasV6 then Ok(Ip(V6(cfg.parseV6(inside).value), ParsePort(port).value)) else Err(Ipv6Unsupported)
  {
    var rest := inside + [CLOSE] + ([COLON] + port);
    FirstIndexOf(inside, CLOSE, [COLON] + port);
    assert ([OPEN] + rest)[1..] == rest;
    assert rest[..|inside|] == inside && rest[|inside| + 1..] == [COLON] + port;
    assert ([COLON] + port)[1..] == port;
  }

  /** `authority` spells `host` and `port`, plainly or as a bracketed address. */
  predicate Spells(authority: Octets, bracketed: bool, host: Octets, port: Octets) {
    if bracketed then authority == [OPEN] + (host + [CLOSE] + ([COLON] + port)) && CLOSE !in host
    else authority == host + [COLON] + port && COLON !in host
  }

  /** And a target is only ever taken from an authority of one of those shapes: a name from the plain one alone. */
  lemma TargetCameFromAuthority(cfg: Config, authority: Octets)
    returns (bracketed: bool, host: Octets, port: Octets)
    requires TargetFromAuthority(cfg, authority).Ok?
    ensures Spells(authority, bracketed, host, port) && ParsePort(port).Ok?
    ensures bracketed == (authority != [] && authority[0] == OPEN)
    ensures var t := TargetFromAuthority(cfg, authority).value;
            if bracketed then cfg.parseV6(host).Some? && t == Ip(V6(cfg.parseV6(host).value), ParsePort(port).value)
            else
              && ValidHost(host)
              && t == match cfg.parse(host)
                      case Some(address) => Ip(address, ParsePort(port).value)
                      case None => Domain(host, ParsePort(port).value)
  {
    bracketed := authority != [] && authority[0] == OPEN;
    if bracketed {
      var rest := authority[1..];
      var i := FirstIndex(rest, CLOSE);
      host, port := rest[..i], rest[i + 1..][1..];
      hide FirstIndex, ParsePort;
      assert rest == host + [CLOSE] + ([COLON] + port);
      assert authority == [OPEN] + rest;
    } else {
      var i := LastIndex(authority, COLON);
      host, port := authority[..i], authority[i + 1..];
      hide LastIndex, ParsePort, ValidHost;
      assert authority == host + [COLON] + port;
    }
  }

  /** `authority` spells `target`: a host, or a bracketed address, and a port of one to five digits from 1 to 65535. */
  predicate SpellsTarget(cfg: Config, authority: Octets, bracketed: bool, host: Octets, port: Octets, target: Target) {
    && Spells(authority, bracketed, host, port)
    && 1 <= |port| <= 5 && (forall b :: b in port ==> 48 <= b <= 57) && 1 <= Decimal(port) <= 65535
    && (target.Ip? && target.address.V6? ==> cfg.hasV6)
    && if bracketed then
         match cfg.parseV6(host)
         case Some(octets) => target == Ip(V6(octets), Decimal(port))
         case None => false
       else
         && 1 <= |host| <= 255 && host[0] != 91 && (forall b :: b in host ==> 0x21 <= b <= 0x7e)
         && match cfg.parse(host)
            case Some(address) => target == Ip(address, Decimal(port))
            case None => target == Domain(host, Decimal(port))
  }

  lemma SpelledIsTaken(
    cfg: Config, authority: Octets, bracketed: bool, host: Octets, port: Octets, target: Target)
    requires SpellsTarget(cfg, authority, bracketed, host, port, target)
    ensures TargetFromAuthority(cfg, authority) == Ok(target)
  {
    hide TargetFromAuthority, Decimal;
    assert ParsePort(port) == Ok(Decimal(port));
    if bracketed {
      BracketDecodes(cfg, host, port);
    } else {
      AuthorityDecodes(cfg, host, port);
    }
  }

  /** The destination, exactly: a target is taken from an authority if and only if the authority spells that target. */
  lemma AuthorityIff(cfg: Config, authority: Octets, target: Target)
    ensures TargetFromAuthority(cfg, authority) == Ok(target) <==>
            exists bracketed, host, port :: SpellsTarget(cfg, authority, bracketed, host, port, target)
  {
    if TargetFromAuthority(cfg, authority) == Ok(target) {
      TargetsAreDialable(cfg, authority);
      var bracketed, host, port := TargetCameFromAuthority(cfg, authority);
      PlainIsUnbracketed(cfg, authority, bracketed, host, port);
      hide TargetFromAuthority, Decimal;
      assert SpellsTarget(cfg, authority, bracketed, host, port, target);
    }
    if bracketed, host, port :| SpellsTarget(cfg, authority, bracketed, host, port, target) {
      hide TargetFromAuthority, Decimal;
      SpelledIsTaken(cfg, authority, bracketed, host, port, target);
    }
  }

  /** A refusal for IPv6 means just that: the tunnel lacks it, and with it an IPv6 target would have been taken. */
  lemma Ipv6RefusedIff(cfg: Config, authority: Octets)
    ensures TargetFromAuthority(cfg, authority) == Err(Ipv6Unsupported) <==>
            && !cfg.hasV6
            && var r := TargetFromAuthority(cfg.(hasV6 := true), authority);
               r.Ok? && r.value.Ip? && r.value.address.V6?
  {
    if authority != [] && authority[0] == OPEN {
      BracketRefusedIff(cfg, authority[1..]);
      hide FromBracket;
    } else {
      hide Decimal, LastIndex, ValidHost, FromBracket;
    }
  }

  lemma BracketRefusedIff(cfg: Config, rest: Octets)
    ensures FromBracket(cfg, rest) == Err(Ipv6Unsupported) <==>
            && !cfg.hasV6
            && var r := FromBracket(cfg.(hasV6 := true), rest);
               r.Ok? && r.value.Ip? && r.value.address.V6?
  {
    hide Decimal, FirstIndex;
  }

  lemma PlainIsUnbracketed(cfg: Config, authority: Octets, bracketed: bool, host: Octets, port: Octets)
    requires TargetFromAuthority(cfg, authority).Ok? && Spells(authority, bracketed, host, port)
    requires bracketed == (authority != [] && authority[0] == OPEN)
    ensures !bracketed && host != [] ==> host[0] != OPEN
  {
    assert host != [] && !bracketed ==> authority[0] == host[0];
  }

  // ----- authorization -------------------------------------------------------------------------

  type Decoder = Octets -> Option<(Octets, Octets)>

  function Authorize(auth: AuthPolicy, header: Option<Octets>, decode: Decoder, capacity: bool): Result<()> {
    if auth.Disabled? then Ok(())
    else if header.None? then Err(AuthRequired)
    else if !capacity then Err(AuthRateLimited)
    else if decode(header.value) == Some((auth.username, auth.password)) then Ok(())
    else Err(AuthFailed)
  }

  /** The pair that was configured, presented under the limiter's capacity, or none asked for. */
  predicate Admitted(auth: AuthPolicy, header: Option<Octets>, decode: Decoder, capacity: bool) {
    auth.Disabled? ||
    (capacity && header.Some? && decode(header.value) == Some((auth.username, auth.password)))
  }

  /** `negotiate_inner` once the head is parsed: nothing is said about the destination before authorization. */
  function Connect(auth: AuthPolicy, cfg: Config, header: Option<Octets>, decode: Decoder, authority: Octets,
      capacity: bool)
    : Result<Target>
  {
    match Authorize(auth, header, decode, capacity)
    case Err(e) => Err(e)
    case Ok(_) => TargetFromAuthority(cfg, authority)
  }

  /** With authentication required, a target takes capacity and the configured pair, and keeps the shared promise. */
  lemma ConnectTakesCredentials(
    auth: AuthPolicy, cfg: Config, header: Option<Octets>, decode: Decoder, authority: Octets, capacity: bool)
    ensures var r := Connect(auth, cfg, header, decode, authority, capacity);
            r.Ok? ==>
              && Dialable(r.value, cfg.hasV6, cfg.parse)
              && (auth.Required? ==>
                    capacity && header.Some? && decode(header.value) == Some((auth.username, auth.password)))
  {
    TargetsAreDialable(cfg, authority);
  }

  /**
    The verdict, exactly. Whoever is admitted gets the verdict on the authority and no other; whoever is not is told
    why, and nothing about the destination: no header is a challenge whatever the capacity, a header without capacity is
    rate limited whatever it says, and any other header is a failure.
   */
  lemma ConnectVerdict(
    auth: AuthPolicy, cfg: Config, header: Option<Octets>, decode: Decoder, authority: Octets, capacity: bool)
    ensures var r := Connect(auth, cfg, header, decode, authority, capacity);
            && (Admitted(auth, header, decode, capacity) ==> r == TargetFromAuthority(cfg, authority))
            && (!Admitted(auth, header, decode, capacity) ==>
                  r == Err(match (header, capacity)
                           case (None, _) => AuthRequired
                           case (Some(_), false) => AuthRateLimited
                           case (Some(_), true) => AuthFailed))
  {
    hide TargetFromAuthority;
  }

  /** A missing header is a discovery, not a failure; anything else that does not verify is charged. */
  method DoAuthorize(auth: AuthPolicy, header: Option<Octets>, decode: Decoder,
                     limiter: Limiter.AuthRateLimiter, peer: Limiter.Peer, asked: real, failed: real)
    returns (r: Result<()>, ghost call: Option<Limiter.Call>)
    modifies limiter
    ensures r == Authorize(auth, header, decode, old(Limiter.HasCapacity(limiter.buckets, peer, asked)))
    ensures r == Ok(()) <==> Admitted(auth, header, decode, old(Limiter.HasCapacity(limiter.buckets, peer, asked)))
    ensures call.Some? <==> r == Err(AuthFailed)
    ensures call.None? ==> limiter.buckets == old(limiter.buckets)
    ensures call.Some? ==>
              && call.value.Failed? && call.value.peer == peer && call.value.now == failed
              && Limiter.Legal(old(limiter.buckets), call.value)
              && limiter.buckets == Limiter.Next(old(limiter.buckets), call.value)
              && old(Limiter.HasCapacity(limiter.buckets, peer, asked))
  {
    hide Limiter.Legal, Limiter.Next, Limiter.HasCapacity;
    if auth.Disabled? {
      return Ok(()), None;
    }
    if header.None? {
      return Err(AuthRequired), None;
    }
    var capacity := limiter.HasCapacityAt(peer, asked);
    if !capacity {
      return Err(AuthRateLimited), None;
    }
    var pair := decode(header.value);
    if pair.Some? && pair.value.0 == auth.username && pair.value.1 == auth.password {
      return Ok(()), None;
    }
    ghost var c := limiter.RecordFailureAt(peer, failed);
    return Err(AuthFailed), Some(c);
  }

  /** Authorize, then judge the destination. */
  method DoConnect(auth: AuthPolicy, cfg: Config, header: Option<Octets>, decode: Decoder, authority: Octets,
                   limiter: Limiter.AuthRateLimiter, peer: Limiter.Peer, asked: real, failed: real)
    returns (r: Result<Target>, ghost call: Option<Limiter.Call>)
    modifies limiter
    ensures r == Connect(auth, cfg, header, decode, authority, old(Limiter.HasCapacity(limiter.buckets, peer, asked)))
    ensures call.Some? <==> r == Err(AuthFailed)
    ensures call.None? ==> limiter.buckets == old(limiter.buckets)
    ensures call.Some? ==>
              && call.value.Failed? && call.value.peer == peer && call.value.now == failed
              && Limiter.Legal(old(limiter.buckets), call.value)
              && limiter.buckets == Limiter.Next(old(limiter.buckets), call.value)
              && old(Limiter.HasCapacity(limiter.buckets, peer, asked))
  {
    TargetErrors(cfg, authority);
    hide Limiter.Legal, Limiter.Next, Limiter.HasCapacity, TargetFromAuthority;
    var authorized, c := DoAuthorize(auth, header, decode, limiter, peer, asked, failed);
    call := c;
    r := if authorized.Err? then Err(authorized.error) else TargetFromAuthority(cfg, authority);
  }
}
