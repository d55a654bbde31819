/**
  The two front ends on one limiter: any sequence of SOCKS5 negotiations and HTTP authorizations, from
  any peers, is a legal, guarded run of the limiter, so its rate bound holds for the code as it runs.
 */
module FrontEnds {
  import opened Bytes
  import opened Limiter
  import Target
  import opened Wrappers
  import Socks5
  import HttpConnect
  import HttpFront

  datatype Attempt =
    | ViaSocks5(peer: Peer, asked: real, failed: real, socks: Socks5.Config, input: Octets)
    | ViaHttp(peer: Peer, asked: real, failed: real, http: HttpFront.Env, chunks: seq<Octets>)

  /** Attempts one after another: each asks, and if it fails is charged, before the next one asks. */
  predicate Sequential(attempts: seq<Attempt>, from: real, to: real) {
    && (forall i :: 0 <= i < |attempts| ==> from <= attempts[i].asked <= attempts[i].failed <= to)
    && (forall i, j :: 0 <= i < j < |attempts| ==> attempts[i].failed <= attempts[j].asked)
  }

  /** The instant up to which the limiter has been used after `k` attempts. */
  function Clock(attempts: seq<Attempt>, from: real, k: nat): real
    requires k <= |attempts|
  {
    if k == 0 then from else attempts[k - 1].failed
  }

  // ----- runs grow at the end ------------------------------------------------------------------

  lemma {:induction false} RunSnoc(m: Buckets, calls: seq<Call>, c: Call)
    ensures Run(m, calls + [c]) == Next(Run(m, calls), c)
    ensures LegalRun(m, calls + [c]) <==> LegalRun(m, calls) && Legal(Run(m, calls), c)
    decreases |calls|
  {
    hide Next, Legal;
    if calls == [] {
      assert calls + [c] == [c] && [c][1..] == [];
      assert Run(Next(m, c), []) == Next(m, c);
    } else {
      assert (calls + [c])[1..] == calls[1..] + [c];
      RunSnoc(Next(m, calls[0]), calls[1..], c);
    }
  }

  lemma {:induction false} GuardedSnoc(m: Buckets, calls: seq<Call>, c: Call, p: Peer)
    requires Guarded(m, calls, p) && c.Failed? && p !in c.evicted
    requires c.peer == p ==> HasCapacity(Run(m, calls), p, c.now)
    ensures Guarded(m, calls + [c], p)
    decreases |calls|
  {
    hide Next, HasCapacity;
    if calls == [] {
      assert calls + [c] == [c] && [c][1..] == [];
    } else {
      assert (calls + [c])[1..] == calls[1..] + [c];
      GuardedSnoc(Next(m, calls[0]), calls[1..], c, p);
    }
  }

  lemma {:induction false} TimedSnoc(calls: seq<Call>, c: Call, from: real, mid: real)
    requires Timed(calls, from, mid) && mid <= c.now
    ensures Timed(calls + [c], from, c.now)
    decreases |calls|
  {
    if calls == [] {
      assert calls + [c] == [c] && [c][1..] == [];
    } else {
      assert (calls + [c])[1..] == calls[1..] + [c];
      TimedSnoc(calls[1..], c, calls[0].now, mid);
    }
  }

  lemma {:induction false} RunValid(m: Buckets, calls: seq<Call>, from: real, to: real)
    requires Valid(m, from) && Timed(calls, from, to) && LegalRun(m, calls)
    ensures Valid(Run(m, calls), to)
    decreases |calls|
  {
    hide Next, Legal, Valid;
    if calls == [] {
      ValidLater(m, from, to);
    } else {
      ValidLater(m, from, calls[0].now);
      TokensAfter(m, calls[0], 0);
      RunValid(Next(m, calls[0]), calls[1..], calls[0].now, to);
    }
  }

  /** Asked at one instant, charged at a later one: the capacity granted has not gone. */
  lemma CapacityKeeps(m: Buckets, p: Peer, s: real, asked: real, failed: real)
    requires Valid(m, s) && s <= asked <= failed && HasCapacity(m, p, asked)
    ensures HasCapacity(m, p, failed)
  {
  }

  // ----- the whole run -------------------------------------------------------------------------

  /** What `calls` records of the run so far, seen from peer `p`. */
  ghost predicate Recorded(m: Buckets, calls: seq<Call>, from: real, to: real, p: Peer) {
    && LegalRun(m, calls) && Timed(calls, from, to)
    && ((forall c :: c in calls && c.Failed? ==> p !in c.evicted) ==> Guarded(m, calls, p))
  }

  lemma RecordOne(m: Buckets, calls: seq<Call>, from: real, mid: real, asked: real, c: Call, p: Peer)
    requires Valid(m, from) && Recorded(m, calls, from, mid, p)
    requires c.Failed? && mid <= asked <= c.now && Legal(Run(m, calls), c)
    requires HasCapacity(Run(m, calls), c.peer, asked)
    ensures Recorded(m, calls + [c], from, c.now, p) && Run(m, calls + [c]) == Next(Run(m, calls), c)
  {
    RunSnoc(m, calls, c);
    TimedSnoc(calls, c, from, mid);
    RunValid(m, calls, from, mid);
    CapacityKeeps(Run(m, calls), c.peer, mid, asked, c.now);
    hide Legal, Next, HasCapacity, LegalRun, Timed, Run, Valid, Guarded;
    if forall x :: x in calls + [c] && x.Failed? ==> p !in x.evicted {
      assert c in calls + [c];
      assert forall x :: x in calls ==> x in calls + [c];
      GuardedSnoc(m, calls, c, p);
    }
  }

  /** How an attempt ends: with a target, with a wrong pair, or refused for any other reason. */
  datatype Served = Granted(target: Target.Target) | WrongPair | Refused

  /** The verdict on an attempt, given what the limiter answered when it asked. */
  function VerdictOn(a: Attempt, capacity: bool): Served {
    match a
    case ViaSocks5(_, _, _, cfg, input) =>
      (match Socks5.Negotiate(cfg, capacity, input).result
       case Ok(t) => Granted(t)
       case Err(e) => if e == Socks5.AuthFailed then WrongPair else Refused)
    case ViaHttp(_, _, _, env, chunks) =>
      (match HttpFront.Negotiate(env, chunks, capacity)
       case Ok(n) => Granted(n.target)
       case Err(e) => if e == HttpConnect.AuthFailed then WrongPair else Refused)
  }

  /** The attempt presents the configured pair, in its front end's own encoding, or none is asked for. */
  ghost predicate Presents(a: Attempt) {
    match a
    case ViaSocks5(_, _, _, cfg, input) =>
      cfg.auth.Required? ==>
        exists t :: Socks5.WellFormed(t) && Socks5.Encode(cfg, t) <= input
                    && t.username == cfg.auth.username && t.password == cfg.auth.password
    case ViaHttp(_, _, _, env, chunks) => env.auth.Required? ==> HttpFront.Presented(env, chunks)
  }

  predicate AuthRequired(a: Attempt) { if a.ViaSocks5? then a.socks.auth.Required? else a.http.auth.Required? }

  ghost predicate IsDialable(a: Attempt, t: Target.Target) {
    if a.ViaSocks5? then Target.Dialable(t, a.socks.hasV6, a.socks.parse)
    else Target.Dialable(t, a.http.cfg.hasV6, a.http.cfg.parse)
  }

  /**
    A target goes only to a peer that presented the configured pair and had capacity, and is one both front ends
    promise to be dialable; a wrong pair is only ever noticed of a peer that had capacity.
   */
  lemma VerdictMeans(a: Attempt, capacity: bool)
    ensures var v := VerdictOn(a, capacity);
            && (v.Granted? ==> Presents(a) && IsDialable(a, v.target) && (AuthRequired(a) ==> capacity))
            && (v == WrongPair ==> AuthRequired(a) && capacity)
  {
    match a
    case ViaSocks5(_, _, _, cfg, input) =>
      hide Socks5.Negotiate, Socks5.Encode, Socks5.WellFormed, Socks5.Charged, Target.Dialable;
      if Socks5.Negotiate(cfg, capacity, input).result.Ok? {
        var t := Socks5.AcceptedIsEncoded(cfg, capacity, input);
        Socks5.TargetsAreDialable(cfg, capacity, input);
        assert Socks5.Encode(cfg, t) <= input;
      }
      Socks5.ChargedIff(cfg, capacity, input);
      Socks5.CapacityComesFirst(cfg, capacity, input);
    case ViaHttp(_, _, _, env, chunks) =>
      HttpFront.NegotiateTakesCredentials(env, chunks, capacity);
      hide HttpFront.Negotiate, HttpFront.Presented, Target.Dialable;
  }

  /** The call is the one charge of attempt `a` on `m`. */
  ghost predicate Charges(m: Buckets, a: Attempt, c: Call) {
    c.Failed? && c.peer == a.peer && c.now == a.failed && Legal(m, c)
  }

  /**
    Runs one attempt against the limiter, through whichever front end it came by: the verdict is the one the
    limiter's answer calls for, and a failure is charged exactly when that is a wrong pair.
   */
  method Serve(a: Attempt, limiter: AuthRateLimiter) returns (v: Served, ghost call: Option<Call>)
    modifies limiter
    ensures v == VerdictOn(a, HasCapacity(old(limiter.buckets), a.peer, a.asked))
    ensures call.Some? <==> v == WrongPair
    ensures call.None? ==> limiter.buckets == old(limiter.buckets)
    ensures call.Some? ==>
              && Charges(old(limiter.buckets), a, call.value)
              && limiter.buckets == Next(old(limiter.buckets), call.value)
  {
    hide Legal, Next, HasCapacity, Socks5.Negotiate, Socks5.Charged, HttpFront.Negotiate;
    match a
    case ViaSocks5(peer, asked, failed, cfg, input) =>
      var client := new Socks5.Client(input);
      assert input[0..] == input;
      Socks5.ChargedIff(cfg, HasCapacity(limiter.buckets, peer, asked), input);
      var r, c := Socks5.DoNegotiate(client, cfg, limiter, peer, asked, failed);
      call := c;
      v := if r.Ok? then Granted(r.value) else if r.error == Socks5.AuthFailed then WrongPair else Refused;
    case ViaHttp(peer, asked, failed, env, chunks) =>
      var n, c := HttpFront.DoNegotiate(env, chunks, limiter, peer, asked, failed);
      call := c;
      v := if n.Ok? then Granted(n.value.target) else if n.error == HttpConnect.AuthFailed then WrongPair else Refused;
  }

  /** How many of these verdicts were charged. */
  function Charged(verdicts: seq<Served>): nat {
    if verdicts == [] then 0
    else Charged(verdicts[..|verdicts| - 1]) + if verdicts[|verdicts| - 1] == WrongPair then 1 else 0
  }

  /** Attempt `k` ended as the charges before it call for, and was charged in its turn if that was a wrong pair. */
  ghost predicate ServedAt(m: Buckets, attempts: seq<Attempt>, verdicts: seq<Served>, calls: seq<Call>, k: nat)
    requires k < |attempts| && |verdicts| == |attempts|
  {
    var a, v, n := attempts[k], verdicts[k], Charged(verdicts[..k]);
    && n <= |calls|
    && v == VerdictOn(a, HasCapacity(Run(m, calls[..n]), a.peer, a.asked))
    && (v == WrongPair ==> n < |calls| && Charges(Run(m, calls[..n]), a, calls[n]))
  }

  /** `calls` are exactly the charges of `attempts` served one after another on `m`, and `verdicts` their ends. */
  ghost predicate ServedAs(m: Buckets, attempts: seq<Attempt>, verdicts: seq<Served>, calls: seq<Call>) {
    && |verdicts| == |attempts| && |calls| == Charged(verdicts)
    && forall k: nat :: k < |attempts| ==> ServedAt(m, attempts, verdicts, calls, k)
  }

  /** How many of `p`'s attempts ended in a wrong pair. */
  function WrongPairs(attempts: seq<Attempt>, verdicts: seq<Served>, p: Peer): nat
    requires |verdicts| == |attempts|
    decreases |attempts|
  {
    if attempts == [] then 0
    else
      var n := |attempts| - 1;
      WrongPairs(attempts[..n], verdicts[..n], p) + if attempts[n].peer == p && verdicts[n] == WrongPair then 1 else 0
  }

  lemma {:induction false} FailuresSnoc(calls: seq<Call>, c: Call, p: Peer)
    ensures Failures(calls + [c], p) == Failures(calls, p) + if c.Failed? && c.peer == p then 1 else 0
    decreases |calls|
  {
    if calls == [] {
      assert calls + [c] == [c] && [c][1..] == [];
    } else {
      assert (calls + [c])[1..] == calls[1..] + [c];
      FailuresSnoc(calls[1..], c, p);
    }
  }

  lemma {:induction false} ChargedGrows(verdicts: seq<Served>, k: nat)
    requires k <= |verdicts|
    ensures Charged(verdicts[..k]) <= Charged(verdicts)
    decreases |verdicts|
  {
    if k == |verdicts| {
      assert verdicts[..k] == verdicts;
    } else {
      ChargedGrows(verdicts[..|verdicts| - 1], k);
      assert verdicts[..|verdicts| - 1][..k] == verdicts[..k];
    }
  }

  lemma ServedStays(m: Buckets, attempts: seq<Attempt>, verdicts: seq<Served>, calls: seq<Call>,
                    a: Attempt, v: Served, more: seq<Call>, k: nat)
    requires ServedAs(m, attempts, verdicts, calls) && k < |attempts|
    ensures ServedAt(m, attempts + [a], verdicts + [v], calls + more, k)
  {
    hide HasCapacity, VerdictOn, Run, Charges, Charged;
    assert ServedAt(m, attempts, verdicts, calls, k);
    ChargedGrows(verdicts, k);
    assert (verdicts + [v])[..k] == verdicts[..k];
    var n := Charged(verdicts[..k]);
    assert (calls + more)[..n] == calls[..n];
  }

  /** One attempt more. */
  lemma ServedSnoc(m: Buckets, attempts: seq<Attempt>, verdicts: seq<Served>, calls: seq<Call>,
                   a: Attempt, more: seq<Call>)
    requires ServedAs(m, attempts, verdicts, calls)
    requires var v := VerdictOn(a, HasCapacity(Run(m, calls), a.peer, a.asked));
             if v == WrongPair then |more| == 1 && Charges(Run(m, calls), a, more[0]) else more == []
    ensures var v := VerdictOn(a, HasCapacity(Run(m, calls), a.peer, a.asked));
            && ServedAs(m, attempts + [a], verdicts + [v], calls + more)
            && forall p ::
                 WrongPairs(attempts + [a], verdicts + [v], p) - WrongPairs(attempts, verdicts, p)
                   == Failures(calls + more, p) - Failures(calls, p)
  {
    hide HasCapacity, VerdictOn, Legal, Run, ServedAt;
    var v := VerdictOn(a, HasCapacity(Run(m, calls), a.peer, a.asked));
    var all, ends, n := attempts + [a], verdicts + [v], |attempts|;
    assert all[..n] == attempts && ends[..n] == verdicts;
    forall k: nat | k < n ensures ServedAt(m, all, ends, calls + more, k) {
      ServedStays(m, attempts, verdicts, calls, a, v, more, k);
    }
    LastServed(m, attempts, verdicts, calls, a, more);
    if v == WrongPair {
      assert more == [more[0]];
      forall p ensures Failures(calls + more, p) == Failures(calls, p) + if a.peer == p then 1 else 0 {
        FailuresSnoc(calls, more[0], p);
      }
    } else {
      assert calls + more == calls;
    }
  }

  lemma LastServed(m: Buckets, attempts: seq<Attempt>, verdicts: seq<Served>, calls: seq<Call>,
                   a: Attempt, more: seq<Call>)
    requires |verdicts| == |attempts| && |calls| == Charged(verdicts)
    requires var v := VerdictOn(a, HasCapacity(Run(m, calls), a.peer, a.asked));
             if v == WrongPair then |more| == 1 && Charges(Run(m, calls), a, more[0]) else more == []
    ensures var v := VerdictOn(a, HasCapacity(Run(m, calls), a.peer, a.asked));
            ServedAt(m, attempts + [a], verdicts + [v], calls + more, |attempts|)
  {
    hide HasCapacity, VerdictOn, Charges, Run, Charged;
    var v := VerdictOn(a, HasCapacity(Run(m, calls), a.peer, a.asked));
    assert (verdicts + [v])[..|attempts|] == verdicts && (calls + more)[..|calls|] == calls;
  }

  /** What is known after `attempts`, the last of them over at `now`. */
  ghost predicate Progress(m: Buckets, attempts: seq<Attempt>, verdicts: seq<Served>, calls: seq<Call>,
                           from: real, now: real, p: Peer)
  {
    && ServedAs(m, attempts, verdicts, calls) && Recorded(m, calls, from, now, p)
    && WrongPairs(attempts, verdicts, p) == Failures(calls, p)
  }

  lemma ProgressSnoc(m: Buckets, attempts: seq<Attempt>, verdicts: seq<Served>, calls: seq<Call>,
                     from: real, now: real, p: Peer, a: Attempt, more: seq<Call>)
    requires Valid(m, from) && Progress(m, attempts, verdicts, calls, from, now, p) && now <= a.asked <= a.failed
    requires var v := VerdictOn(a, HasCapacity(Run(m, calls), a.peer, a.asked));
             if v == WrongPair then |more| == 1 && Charges(Run(m, calls), a, more[0]) else more == []
    ensures var v := VerdictOn(a, HasCapacity(Run(m, calls), a.peer, a.asked));
            Progress(m, attempts + [a], verdicts + [v], calls + more, from, a.failed, p)
    ensures Run(m, calls + more) == Run(Run(m, calls), more)
  {
    ServedSnoc(m, attempts, verdicts, calls, a, more);
    NothingMore(Run(m, calls));
    hide Legal, Next, HasCapacity, LegalRun, Run, Valid, Guarded, VerdictOn, Failures, ServedAs, WrongPairs;
    if more == [] {
      TimedLater(calls, from, now, a.failed);
      assert calls + more == calls;
    } else {
      VerdictMeans(a, HasCapacity(Run(m, calls), a.peer, a.asked));
      RecordOne(m, calls, from, now, a.asked, more[0], p);
      assert more == [more[0]];
      OneMoreCall(Run(m, calls), more[0]);
    }
  }

  lemma NothingMore(m: Buckets)
    ensures Run(m, []) == m
  {
  }

  lemma OneMoreCall(m: Buckets, c: Call)
    ensures Run(m, [c]) == Next(m, c)
  {
    assert [c][1..] == [];
  }

  /**
    Any sequence of attempts over both front ends. The limiter is asked and charged exactly as the verdicts say, it
    never tracks more than 4096 peers, and a peer that is never forcibly evicted ends at most five attempts, plus one
    for every twelve seconds of the window, in a wrong pair.
   */
  method ServeAll(attempts: seq<Attempt>, limiter: AuthRateLimiter, p: Peer, from: real, to: real)
    returns (verdicts: seq<Served>, ghost calls: seq<Call>)
    requires from <= to && Sequential(attempts, from, to) && Valid(limiter.buckets, from)
    modifies limiter
    ensures ServedAs(old(limiter.buckets), attempts, verdicts, calls)
    ensures LegalRun(old(limiter.buckets), calls) && limiter.buckets == Run(old(limiter.buckets), calls)
    ensures |old(limiter.buckets)| <= 4096 ==> |limiter.buckets| <= 4096
    ensures |verdicts| == |attempts| && WrongPairs(attempts, verdicts, p) == Failures(calls, p)
    ensures (forall c :: c in calls && c.Failed? ==> p !in c.evicted) ==>
              WrongPairs(attempts, verdicts, p) as real <= 5.0 + (to - from) / 12.0
  {
    hide *;
    ghost var m := limiter.buckets;
    verdicts, calls := Drain(attempts, limiter, p, from, to);
    SequentialAt(attempts, from, to, |attempts|);
    ProgressMeans(m, attempts, verdicts, calls, from, Clock(attempts, from, |attempts|), to, p);
  }

  /** The loop itself. */
  method Drain(attempts: seq<Attempt>, limiter: AuthRateLimiter, ghost p: Peer, ghost from: real, ghost to: real)
    returns (verdicts: seq<Served>, ghost calls: seq<Call>)
    requires from <= to && Sequential(attempts, from, to) && Valid(limiter.buckets, from)
    modifies limiter
    ensures var m := old(limiter.buckets);
            && Progress(m, attempts, verdicts, calls, from, Clock(attempts, from, |attempts|), p)
            && limiter.buckets == Run(m, calls)
  {
    hide *;
    ghost var m := limiter.buckets;
    calls, verdicts := [], [];
    ProgressStarts(m, from, p);
    SequentialAt(attempts, from, to, 0);
    var k := 0;
    assert attempts[..k] == [];
    while k < |attempts|
      invariant 0 <= k <= |attempts|
      invariant Progress(m, attempts[..k], verdicts, calls, from, Clock(attempts, from, k), p)
      invariant limiter.buckets == Run(m, calls)
    {
      SequentialAt(attempts, from, to, k);
      SequentialAt(attempts, from, to, k + 1);
      var v;
      v, calls := ServeNext(attempts[k], limiter, m, attempts[..k], verdicts, calls, from, Clock(attempts, from, k), p);
      assert attempts[..k + 1] == attempts[..k] + [attempts[k]];
      verdicts := verdicts + [v];
      k := k + 1;
    }
    assert attempts[..k] == attempts;
  }

  /** One attempt after those already served. */
  method ServeNext(a: Attempt, limiter: AuthRateLimiter, ghost m: Buckets, ghost attempts: seq<Attempt>,
                   ghost verdicts: seq<Served>, ghost calls: seq<Call>,
                   ghost from: real, ghost now: real, ghost p: Peer)
    returns (v: Served, ghost after: seq<Call>)
    requires Valid(m, from) && Progress(m, attempts, verdicts, calls, from, now, p) && limiter.buckets == Run(m, calls)
    requires now <= a.asked <= a.failed
    modifies limiter
    ensures Progress(m, attempts + [a], verdicts + [v], after, from, a.failed, p) && limiter.buckets == Run(m, after)
  {
    hide *;
    ghost var call;
    v, call := Serve(a, limiter);
    ghost var more := if call.Some? then [call.value] else [];
    ProgressSnoc(m, attempts, verdicts, calls, from, now, p, a, more);
    NothingMore(Run(m, calls));
    if call.Some? {
      OneMoreCall(Run(m, calls), call.value);
    }
    after := calls + more;
  }

  lemma ProgressStarts(m: Buckets, from: real, p: Peer)
    ensures Progress(m, [], [], [], from, from, p) && Run(m, []) == m
  {
  }

  lemma SequentialAt(attempts: seq<Attempt>, from: real, to: real, k: nat)
    requires from <= to && Sequential(attempts, from, to) && k <= |attempts|
    ensures Clock(attempts, from, 0) == from && Clock(attempts, from, k) <= to
    ensures k > 0 ==> Clock(attempts, from, k) == attempts[k - 1].failed
    ensures k < |attempts| ==> Clock(attempts, from, k) <= attempts[k].asked <= attempts[k].failed
  {
  }

  lemma ProgressMeans(m: Buckets, attempts: seq<Attempt>, verdicts: seq<Served>, calls: seq<Call>,
                      from: real, now: real, to: real, p: Peer)
    requires Valid(m, from) && Progress(m, attempts, verdicts, calls, from, now, p) && now <= to
    ensures ServedAs(m, attempts, verdicts, calls) && LegalRun(m, calls) && |verdicts| == |attempts|
    ensures |m| <= 4096 ==> |Run(m, calls)| <= 4096
    ensures WrongPairs(attempts, verdicts, p) == Failures(calls, p)
    ensures (forall c :: c in calls && c.Failed? ==> p !in c.evicted) ==>
              WrongPairs(attempts, verdicts, p) as real <= 5.0 + (to - from) / 12.0
  {
    hide Run, Valid, Guarded, VerdictOn, Failures, WrongPairs, Charges;
    TimedLater(calls, from, now, to);
    if |m| <= 4096 {
      RunTracksFew(m, calls);
    }
    if forall c :: c in calls && c.Failed? ==> p !in c.evicted {
      FailureRateBound(m, calls, p, from, to);
    }
  }
}
