/**
  SOCKS5 streams that are no transcript: cut short, or wrong in a byte that frames the exchange. Together with the
  transcripts these are all the streams there are.
 */
module Socks5Framing {
  import opened Wrappers
  import opened Bytes
  import opened Target
  import opened Socks5

  // ----- cut short -----------------------------------------------------------------------------

  lemma GreetingCut(cfg: Config, m: Octets, k: nat)
    requires Methods(m) && k < |EncodeGreeting(m)|
    ensures Greet(cfg, EncodeGreeting(m)[..k]) == Stage(Err(Io), k, [])
  {
  }

  lemma AuthCut(user: Octets, pass: Octets, capacity: bool, u: Octets, p: Octets, k: nat)
    requires Field(u) && Field(p) && k < |EncodeAuth(u, p)|
    ensures Authenticate(user, pass, capacity, EncodeAuth(u, p)[..k]) == Stage(Err(Io), k, [])
  {
    var s := EncodeAuth(u, p)[..k];
    if k > 1 {
      assert s[1..][0] == |u|;
      if k >= 2 + |u| {
        var e := EncodeAuth(u, p);
        assert s[1..][1..1 + |u|] == e[2..2 + |u|] == u;
        if k > 2 + |u| {
          assert s[2 + |u|..][0] == |p|;
        }
      }
    }
  }

  lemma TargetCut(cfg: Config, q: Asked, k: nat)
    requires Askable(q) && k < |EncodeAddress(q.destination) + EncodePort(q.port)|
    ensures ReadTarget(cfg, AddressType(q.destination), (EncodeAddress(q.destination) + EncodePort(q.port))[..k]) ==
            Stage(Err(Io), k, [])
  {
    var s := (EncodeAddress(q.destination) + EncodePort(q.port))[..k];
    if q.destination.DestName? && k > 0 {
      assert s[0] == |q.destination.name|;
    }
  }

  lemma RequestCut(cfg: Config, q: Asked, k: nat)
    requires Askable(q) && k < |EncodeRequest(q)|
    ensures Request(cfg, EncodeRequest(q)[..k]) == Stage(Err(Io), k, [])
  {
    var s := EncodeRequest(q)[..k];
    if k >= 4 {
      var tail := EncodeAddress(q.destination) + EncodePort(q.port);
      assert s[4..] == tail[..k - 4];
      TargetCut(cfg, q, k - 4);
      hide ReadTarget, EncodeAddress, EncodePort;
    }
  }

  lemma CutAfter(a: Octets, b: Octets, k: nat)
    requires |a| <= k <= |a + b|
    ensures (a + b)[..k] == a + b[..k - |a|]
  {
  }

  lemma CutTwice(a: Octets, b: Octets, c: Octets, k: nat)
    requires |a| <= k < |a| + |b|
    ensures (a + b + c)[..k] == a + b[..k - |a|]
  {
  }

  /** How far a transcript is read says how much of it was agreed to. */
  lemma ConsumedTells(cfg: Config, capacity: bool, t: Transcript, k: nat)
    requires WellFormed(t) && k < Consumed(cfg, capacity, t)
    ensures var g, a := |EncodeGreeting(t.methods)|, |EncodeAuth(t.username, t.password)|;
            && (k >= g ==> cfg.OfferedMethod() in t.methods)
            && (k >= g + a && cfg.auth.Required? ==> capacity && cfg.auth == Required(t.username, t.password))
            && k < |Encode(cfg, t)|
  {
    AskedErrors(cfg, t.asked);
    hide AskedMeaning, EncodeGreeting, EncodeAuth, EncodeRequest, Askable;
  }

  /** Past an accepted greeting, what is left to do. */
  function Remaining(cfg: Config, capacity: bool, s: Octets): Stage<Target> {
    if cfg.auth.Disabled? then Request(cfg, s)
    else
      var a := Authenticate(cfg.auth.username, cfg.auth.password, capacity, s);
      Then(a, Request(cfg, After(a, s)))
  }

  lemma PastTheGreeting(cfg: Config, capacity: bool, m: Octets, rest: Octets)
    requires Methods(m) && cfg.OfferedMethod() in m
    ensures var r := Remaining(cfg, capacity, rest);
            Negotiate(cfg, capacity, EncodeGreeting(m) + rest) ==
              Stage(r.result, |EncodeGreeting(m)| + r.used,
                    (if cfg.auth.Required? then [0x05, 0x02] else [0x05, 0x00]) + r.output)
  {
    hide Greet, Authenticate, Request, EncodeGreeting;
    GreetDecodes(cfg, m, rest);
  }

  lemma CutInAuth(cfg: Config, capacity: bool, m: Octets, u: Octets, p: Octets, k: nat)
    requires Methods(m) && Field(u) && Field(p) && cfg.auth.Required? && cfg.OfferedMethod() in m
    requires k < |EncodeAuth(u, p)|
    ensures var n := Negotiate(cfg, capacity, EncodeGreeting(m) + EncodeAuth(u, p)[..k]);
            n.result == Err(Io) && n.used == |EncodeGreeting(m)| + k
  {
    hide Negotiate, Authenticate, Request, EncodeGreeting, EncodeAuth;
    AuthCut(cfg.auth.username, cfg.auth.password, capacity, u, p, k);
    PastTheGreeting(cfg, capacity, m, EncodeAuth(u, p)[..k]);
  }

  lemma PastTheCredentials(cfg: Config, capacity: bool, m: Octets, u: Octets, p: Octets, rest: Octets)
    requires Methods(m) && Field(u) && Field(p) && capacity && cfg.auth == Required(u, p) && 0x02 in m
    ensures var r := Request(cfg, rest);
            Negotiate(cfg, capacity, EncodeGreeting(m) + (EncodeAuth(u, p) + rest)) ==
              Stage(r.result, |EncodeGreeting(m)| + (|EncodeAuth(u, p)| + r.used),
                    [0x05, 0x02] + ([0x01, 0x00] + r.output))
  {
    hide Negotiate, Authenticate, Request, EncodeGreeting, EncodeAuth;
    AuthDecodes(u, p, capacity, u, p, rest);
    PastTheGreeting(cfg, capacity, m, EncodeAuth(u, p) + rest);
  }

  /** What a transcript says up to its request. */
  function Opening(cfg: Config, t: Transcript): Octets
    requires WellFormed(t)
  {
    EncodeGreeting(t.methods) + if cfg.auth.Required? then EncodeAuth(t.username, t.password) else []
  }

  /** It is let through to its request. */
  predicate LetThrough(cfg: Config, capacity: bool, t: Transcript) {
    && (cfg.auth.Disabled? ==> 0x00 in t.methods)
    && (cfg.auth.Required? ==> 0x02 in t.methods && capacity && cfg.auth == Required(t.username, t.password))
  }

  lemma EncodeIsOpening(cfg: Config, t: Transcript)
    requires WellFormed(t)
    ensures Encode(cfg, t) == Opening(cfg, t) + EncodeRequest(t.asked)
  {
    hide EncodeGreeting, EncodeAuth, EncodeRequest;
  }

  /** Once let through, the verdict is the one on what follows. */
  lemma PastTheOpening(cfg: Config, capacity: bool, t: Transcript, rest: Octets)
    requires WellFormed(t) && LetThrough(cfg, capacity, t)
    ensures var r := Request(cfg, rest);
            Negotiate(cfg, capacity, Opening(cfg, t) + rest) ==
              Stage(r.result, |Opening(cfg, t)| + r.used,
                    (if cfg.auth.Required? then [0x05, 0x02, 0x01, 0x00] else [0x05, 0x00]) + r.output)
  {
    hide Negotiate, Remaining, Request, EncodeGreeting, EncodeAuth;
    var g := EncodeGreeting(t.methods);
    if cfg.auth.Required? {
      var a := EncodeAuth(t.username, t.password);
      Regrouped(g, a, rest);
      PastTheCredentials(cfg, capacity, t.methods, t.username, t.password, rest);
      Regrouped([0x05, 0x02], [0x01, 0x00], Request(cfg, rest).output);
    } else {
      assert g + [] == g && Remaining(cfg, capacity, rest) == Request(cfg, rest) by {
        NothingButTheRequest(cfg, capacity, rest);
      }
      PastTheGreeting(cfg, capacity, t.methods, rest);
    }
  }

  lemma NothingButTheRequest(cfg: Config, capacity: bool, s: Octets)
    requires cfg.auth.Disabled?
    ensures Remaining(cfg, capacity, s) == Request(cfg, s)
  {
  }

  lemma Regrouped(a: Octets, b: Octets, c: Octets)
    ensures a + b + c == a + (b + c)
  {
  }

  lemma CutInRequest(cfg: Config, capacity: bool, t: Transcript, k: nat)
    requires WellFormed(t) && LetThrough(cfg, capacity, t) && |Opening(cfg, t)| <= k < |Encode(cfg, t)|
    ensures var n := Negotiate(cfg, capacity, Encode(cfg, t)[..k]); n.result == Err(Io) && n.used == k
  {
    var open, r := Opening(cfg, t), EncodeRequest(t.asked);
    EncodeIsOpening(cfg, t);
    hide Negotiate, Request, Opening, Encode, EncodeRequest;
    CutAfter(open, r, k);
    RequestCut(cfg, t.asked, k - |open|);
    PastTheOpening(cfg, capacity, t, r[..k - |open|]);
  }

  /** A stream that ends before its verdict falls gets none: it is an end of stream, wherever it is cut. */
  lemma CutShortIsIo(cfg: Config, capacity: bool, t: Transcript, k: nat)
    requires WellFormed(t) && k < Consumed(cfg, capacity, t)
    ensures k <= |Encode(cfg, t)|
    ensures var n := Negotiate(cfg, capacity, Encode(cfg, t)[..k]); n.result == Err(Io) && n.used == k
  {
    ConsumedTells(cfg, capacity, t, k);
    var g, a := EncodeGreeting(t.methods), EncodeAuth(t.username, t.password);
    hide Greet, Authenticate, Request, EncodeGreeting, EncodeAuth, EncodeRequest, Consumed, WellFormed;
    if k < |g| {
      assert Encode(cfg, t)[..k] == g[..k];
      GreetingCut(cfg, t.methods, k);
    } else if cfg.auth.Required? && k < |g| + |a| {
      var rest := a[..k - |g|];
      assert Encode(cfg, t)[..k] == g + rest by {
        EncodeIsOpening(cfg, t);
        Regrouped(g, a, EncodeRequest(t.asked));
        CutTwice(g, a, EncodeRequest(t.asked), k);
      }
      CutInAuth(cfg, capacity, t.methods, t.username, t.password, k - |g|);
    } else {
      CutInRequest(cfg, capacity, t, k);
    }
  }

  // ----- wrong in a framing byte ---------------------------------------------------------------

  /** The first two bytes: another version, or no methods at all. */
  lemma GreetingFraming(cfg: Config, capacity: bool, version: Byte, count: Byte, rest: Octets)
    requires version != 0x05 || count == 0
    ensures Negotiate(cfg, capacity, [version, count] + rest) ==
            Stage(Err(if version != 0x05 then BadVersion(version) else EmptyMethodList), 2, [])
  {
  }

  /** The version of the credentials. */
  lemma AuthFraming(cfg: Config, capacity: bool, m: Octets, version: Byte, rest: Octets)
    requires cfg.auth.Required? && Methods(m) && 0x02 in m && version != 0x01
    ensures Negotiate(cfg, capacity, EncodeGreeting(m) + ([version] + rest)) ==
            Stage(Err(BadAuthVersion(version)), |EncodeGreeting(m)| + 1, [0x05, 0x02])
  {
    GreetDecodes(cfg, m, [version] + rest);
    hide Greet, EncodeGreeting;
  }

  lemma RequestFraming(cfg: Config, version: Byte, command: Byte, reserved: Byte, atyp: Byte, rest: Octets)
    requires version != 0x05 || reserved != 0 || atyp !in {0x01, 0x03, 0x04}
    ensures Request(cfg, [version, command, reserved, atyp] + rest) ==
            Stage(Err(if version != 0x05 then BadVersion(version)
                      else if reserved != 0 then ReservedNotZero else UnknownAddressType), 4, [])
  {
    assert ([version, command, reserved, atyp] + rest)[4..] == rest;
  }

  /** The head of the request: another version, a reserved byte that is not zero, an address type there is none of. */
  lemma RequestHeadFraming(cfg: Config, capacity: bool, t: Transcript, version: Byte, command: Byte, reserved: Byte,
      atyp: Byte, rest: Octets)
    requires WellFormed(t) && LetThrough(cfg, capacity, t)
    requires version != 0x05 || reserved != 0 || atyp !in {0x01, 0x03, 0x04}
    ensures var n := Negotiate(cfg, capacity, Opening(cfg, t) + ([version, command, reserved, atyp] + rest));
            && n.used == |Opening(cfg, t)| + 4
            && n.result == Err(if version != 0x05 then BadVersion(version)
                               else if reserved != 0 then ReservedNotZero else UnknownAddressType)
            && n.output == if cfg.auth.Required? then [0x05, 0x02, 0x01, 0x00] else [0x05, 0x00]
  {
    RequestFraming(cfg, version, command, reserved, atyp, rest);
    hide Negotiate, Request, Opening;
    PastTheOpening(cfg, capacity, t, [version, command, reserved, atyp] + rest);
  }
}
