/** Who gets through, and who is charged, over either front end: what a client says on the wire decides, exactly. */
module Admission {
  import opened Wrappers
  import opened Bytes
  import opened Target
  import opened FrontEnds
  import Limiter
  import Socks5
  import Framing = Socks5Framing
  import HttpConnect
  import HttpHead
  import HttpSpelling
  import HttpFront

  /** The request part of a SOCKS5 transcript asks for this target, and may have it. */
  predicate AsksFor(cfg: Socks5.Config, q: Socks5.Asked, target: Target) {
    && q.command == 0x01 && q.port != 0
    && (q.destination.DestName? ==>
          var n := q.destination.name; 1 <= |n| <= 255 && forall b :: b in n ==> 0x21 <= b <= 0x7e)
    && Socks5.AsAsked(cfg, q, target) && (target.Ip? && target.address.V6? ==> cfg.hasV6)
  }

  /**
    A SOCKS5 transcript and anything after it: granted a target exactly if it is let through and asks for that target,
    and charged exactly if credentials are asked for, their method was offered, there was capacity, and they are not
    the configured pair.
   */
  lemma Socks5Admission(a: Attempt, capacity: bool, t: Socks5.Transcript, rest: Octets, target: Target)
    requires a.ViaSocks5? && Socks5.WellFormed(t) && a.input == Socks5.Encode(a.socks, t) + rest
    ensures VerdictOn(a, capacity) == Granted(target) <==>
            Framing.LetThrough(a.socks, capacity, t) && AsksFor(a.socks, t.asked, target)
    ensures VerdictOn(a, capacity) == WrongPair <==>
              && a.socks.auth.Required? && 0x02 in t.methods && capacity
              && a.socks.auth != Required(t.username, t.password)
  {
    Socks5.AskedErrors(a.socks, t.asked);
    hide Socks5.Negotiate, Socks5.Encode, Socks5.Consumed, Socks5.Dialogue, Socks5.AskedMeaning, Socks5.WellFormed;
    Socks5.NegotiateDecodes(a.socks, capacity, t, rest);
    Socks5.AcceptedIff(a.socks, capacity, t, rest, target);
  }

  /**
    An HTTP request of at most 8192 bytes, however spelled and in any packets, and anything after it: granted a target
    exactly if it is welcome and its authority spells that target, and charged exactly if credentials are asked for, it
    offers some, there was capacity, and they are not the configured pair.
   */
  lemma HttpAdmission(a: Attempt, capacity: bool, s: HttpSpelling.Spoken, rest: Octets, target: Target)
    requires a.ViaHttp? && HttpSpelling.Speakable(s) && a.http.utf8(HttpSpelling.EncodeHead(s))
    requires |HttpFront.Encode(s)| <= 8192 && HttpHead.Readable(a.chunks)
    requires Concat(a.chunks) == HttpFront.Encode(s) + rest
    ensures VerdictOn(a, capacity) == Granted(target) <==>
              && HttpFront.Welcome(a.http, s, capacity)
              && exists bracketed, host, port ::
                   HttpConnect.SpellsTarget(a.http.cfg, s.authority, bracketed, host, port, target)
    ensures VerdictOn(a, capacity) == WrongPair <==>
              && a.http.auth.Required? && capacity && (exists i :: HttpFront.Offers(s, i))
              && !HttpFront.Welcome(a.http, s, capacity)
  {
    hide HttpFront.Negotiate, HttpFront.Encode, HttpSpelling.Speakable, HttpSpelling.EncodeHead, HttpFront.Offers,
      HttpHead.Readable, Concat, HttpConnect.TargetFromAuthority, HttpConnect.SpellsTarget;
    HttpFront.NegotiateDecodes(a.http, s, rest, a.chunks, capacity);
    HttpConnect.AuthorityIff(a.http.cfg, s.authority, target);
    HttpConnect.TargetErrors(a.http.cfg, s.authority);
  }
}
