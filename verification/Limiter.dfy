/**
  The authentication-failure limiter both proxy front ends share: a token bucket per source address,
  held in a map that never exceeds 4096 entries. Times and tokens are exact reals; a call happens at
  one instant, and instants never go backwards.
 */
module Limiter {

  type Peer = nat

  const BURST: real := 5.0
  const MAX_TRACKED_PEERS: nat := 4096

  datatype Bucket = Bucket(tokens: real, updated: real)

  function Min(a: real, b: real): real { if a < b then a else b }

  function Full(now: real): Bucket { Bucket(BURST, now) }

  /** A clock that reads earlier than the last update gains nothing. */
  function Elapsed(b: Bucket, now: real): real { if now < b.updated then 0.0 else now - b.updated }

  function Refilled(b: Bucket, now: real): Bucket {
    Bucket(Min(b.tokens + Elapsed(b, now) * (5.0 / 60.0), BURST), now)
  }

  function Consumed(b: Bucket): Bucket {
    Bucket(if b.tokens - 1.0 < 0.0 then 0.0 else b.tokens - 1.0, b.updated)
  }

  type Buckets = map<Peer, Bucket>

  /** The tokens a peer has at `now`; an untracked peer has all of them. */
  function Tokens(m: Buckets, p: Peer, now: real): real {
    if p in m then Refilled(m[p], now).tokens else BURST
  }

  function HasCapacity(m: Buckets, p: Peer, now: real): bool { Tokens(m, p, now) >= 1.0 }

  /** The bucket a failure leaves its peer with. */
  function Charged(m: Buckets, p: Peer, now: real): Bucket {
    Consumed(if p in m then Refilled(m[p], now) else Full(now))
  }

  // ----- runs ----------------------------------------------------------------------------------

  /** One call. `evicted` names the peers the forced-eviction loop removed, none in most calls. */
  datatype Call =
    | Asked(peer: Peer, now: real)
    | Failed(peer: Peer, now: real, evicted: set<Peer>)

  predicate MustMakeRoom(m: Buckets, p: Peer) { |m| >= MAX_TRACKED_PEERS && p !in m }

  /** Idle peers have refilled and carry no information. */
  function Retained(m: Buckets, now: real): Buckets {
    map p | p in m && Tokens(m, p, now) < BURST :: m[p]
  }

  function Kept(m: Buckets, p: Peer, now: real): Buckets {
    if MustMakeRoom(m, p) then Retained(m, now) else m
  }

  /** The bounded limiter's next state. */
  function Next(m: Buckets, c: Call): Buckets {
    match c
    case Asked(_, _) => m
    case Failed(p, now, evicted) => (Kept(m, p, now) - evicted)[p := Charged(m, p, now)]
  }

  /**
    The evictions the code may make: none unless a new peer still finds the map full after the
    refilled ones are dropped; then exactly enough, and never a peer with fewer tokens than one kept.
   */
  ghost predicate Legal(m: Buckets, c: Call) {
    c.Failed? ==>
      var kept := Kept(m, c.peer, c.now);
      && c.evicted <= kept.Keys
      && (if MustMakeRoom(m, c.peer) && |kept| >= MAX_TRACKED_PEERS
          then |kept - c.evicted| == MAX_TRACKED_PEERS - 1
          else c.evicted == {})
      && (forall e, q :: e in c.evicted && q in kept && q !in c.evicted
            ==> Tokens(m, q, c.now) <= Tokens(m, e, c.now))
  }

  /** The reference limiter: the same buckets, never dropped, never evicted. */
  function NextUnbounded(u: Buckets, c: Call): Buckets {
    match c
    case Asked(_, _) => u
    case Failed(p, now, _) => u[p := Charged(u, p, now)]
  }

  function Run(m: Buckets, calls: seq<Call>): Buckets
    decreases |calls|
  {
    if calls == [] then m else Run(Next(m, calls[0]), calls[1..])
  }

  function RunUnbounded(u: Buckets, calls: seq<Call>): Buckets
    decreases |calls|
  {
    if calls == [] then u else RunUnbounded(NextUnbounded(u, calls[0]), calls[1..])
  }

  ghost predicate LegalRun(m: Buckets, calls: seq<Call>)
    decreases |calls|
  {
    calls == [] || (Legal(m, calls[0]) && LegalRun(Next(m, calls[0]), calls[1..]))
  }

  /** Calls at nondecreasing instants, all between `from` and `to`. */
  predicate Timed(calls: seq<Call>, from: real, to: real)
    decreases |calls|
  {
    if calls == [] then from <= to else from <= calls[0].now && Timed(calls[1..], calls[0].now, to)
  }

  /** The answers given to the `Asked` calls of a run, in order. */
  function Answers(m: Buckets, calls: seq<Call>): seq<bool>
    decreases |calls|
  {
    if calls == [] then []
    else (if calls[0].Asked? then [HasCapacity(m, calls[0].peer, calls[0].now)] else [])
         + Answers(Next(m, calls[0]), calls[1..])
  }

  function AnswersUnbounded(u: Buckets, calls: seq<Call>): seq<bool>
    decreases |calls|
  {
    if calls == [] then []
    else (if calls[0].Asked? then [HasCapacity(u, calls[0].peer, calls[0].now)] else [])
         + AnswersUnbounded(NextUnbounded(u, calls[0]), calls[1..])
  }

  // ----- the invariant every call keeps --------------------------------------------------------

  ghost predicate Valid(m: Buckets, now: real) {
    forall p :: p in m ==> 0.0 <= m[p].tokens <= BURST && m[p].updated <= now
  }

  lemma TokensLater(m: Buckets, p: Peer, s: real, t: real)
    requires Valid(m, s) && s <= t
    ensures Tokens(m, p, t) == Min(Tokens(m, p, s) + (t - s) * (5.0 / 60.0), BURST)
    ensures 0.0 <= Tokens(m, p, s) <= Tokens(m, p, t) <= BURST
  {
  }

  /** A clock that reads no later than a peer's last update neither refills nor drains it; a failure costs a token. */
  lemma EarlierClock(m: Buckets, p: Peer, now: real)
    requires p in m && 0.0 <= m[p].tokens <= 5.0 && now <= m[p].updated
    ensures Tokens(m, p, now) == m[p].tokens
    ensures Charged(m, p, now).tokens == if m[p].tokens < 1.0 then 0.0 else m[p].tokens - 1.0
  {
  }

  /** Dropping a refilled peer changes nobody's tokens: untracked, it still has all of them. */
  lemma KeptTokens(m: Buckets, p: Peer, now: real, q: Peer)
    requires Valid(m, now)
    ensures Valid(Kept(m, p, now), now) && Tokens(Kept(m, p, now), q, now) == Tokens(m, q, now)
  {
  }

  lemma TokensOfUpdate(k: Buckets, evicted: set<Peer>, p: Peer, b: Bucket, q: Peer, now: real)
    requires Valid(k, now) && 0.0 <= b.tokens <= BURST && b.updated <= now
    ensures var m := (k - evicted)[p := b];
            && Valid(m, now)
            && Tokens(m, q, now) == if q == p then Refilled(b, now).tokens else if q in evicted then BURST
               else Tokens(k, q, now)
  {
  }

  lemma ChargedTokens(m: Buckets, p: Peer, now: real)
    requires Valid(m, now)
    ensures var b := Charged(m, p, now);
            && 0.0 <= b.tokens <= BURST && b.updated == now
            && Refilled(b, now).tokens == Consumed(Bucket(Tokens(m, p, now), now)).tokens
  {
  }

  /** A failure charges one token, or takes what is left; an evicted peer is forgiven; no one else notices. */
  lemma TokensAfter(m: Buckets, c: Call, q: Peer)
    requires Valid(m, c.now) && Legal(m, c)
    ensures var m' := Next(m, c);
            && Valid(m', c.now)
            && Tokens(m', q, c.now) ==
                 if c.Failed? && q == c.peer then Consumed(Bucket(Tokens(m, q, c.now), c.now)).tokens
                 else if c.Failed? && q in c.evicted then BURST
                 else Tokens(m, q, c.now)
  {
    hide Kept, Legal, Charged, Consumed, Refilled, Tokens, Valid;
    if c.Failed? {
      KeptTokens(m, c.peer, c.now, q);
      ChargedTokens(m, c.peer, c.now);
      TokensOfUpdate(Kept(m, c.peer, c.now), c.evicted, c.peer, Charged(m, c.peer, c.now), q, c.now);
    }
  }

  lemma TokensAfterUnbounded(u: Buckets, c: Call, q: Peer)
    requires Valid(u, c.now)
    ensures var u' := NextUnbounded(u, c);
            && Valid(u', c.now)
            && Tokens(u', q, c.now) ==
                 if c.Failed? && q == c.peer then Consumed(Bucket(Tokens(u, q, c.now), c.now)).tokens
                 else Tokens(u, q, c.now)
  {
  }

  /** The memory bound: no legal call leaves more than 4096 peers tracked. */
  lemma NeverTracksMore(m: Buckets, c: Call)
    requires Legal(m, c) && |m| <= 4096
    ensures |Next(m, c)| <= 4096
  {
    if c.Failed? {
      var kept := Kept(m, c.peer, c.now);
      var left := kept - c.evicted;
      assert Next(m, c).Keys == left.Keys + {c.peer};
      assert left.Keys <= kept.Keys <= m.Keys;
      SubsetSize(left.Keys, kept.Keys);
      SubsetSize(kept.Keys, m.Keys);
      assert c.peer in m && !MustMakeRoom(m, c.peer) ==> Next(m, c).Keys == m.Keys;
    }
  }

  /** Over any legal run, however long. */
  lemma {:induction false} RunTracksFew(m: Buckets, calls: seq<Call>)
    requires LegalRun(m, calls) && |m| <= 4096
    ensures |Run(m, calls)| <= 4096
    decreases |calls|
  {
    hide Next, Legal;
    if calls != [] {
      NeverTracksMore(m, calls[0]);
      RunTracksFew(Next(m, calls[0]), calls[1..]);
    }
  }

  lemma {:induction false} SubsetSize<T>(a: set<T>, b: set<T>)
    requires a <= b
    ensures |a| <= |b|
    decreases |a|
  {
    if x :| x in a {
      SubsetSize(a - {x}, b - {x});
    }
  }

  // ----- refinement ----------------------------------------------------------------------------

  ghost predicate AtLeast(m: Buckets, u: Buckets, now: real) {
    forall p :: Tokens(m, p, now) >= Tokens(u, p, now)
  }

  ghost predicate Same(m: Buckets, u: Buckets, now: real) {
    forall p :: Tokens(m, p, now) == Tokens(u, p, now)
  }

  predicate NoEviction(calls: seq<Call>) {
    forall c :: c in calls && c.Failed? ==> c.evicted == {}
  }

  lemma CallKeepsAtLeast(m: Buckets, u: Buckets, c: Call, from: real)
    requires Valid(m, from) && Valid(u, from) && from <= c.now && Legal(m, c) && AtLeast(m, u, from)
    ensures Valid(Next(m, c), c.now) && Valid(NextUnbounded(u, c), c.now)
    ensures AtLeast(Next(m, c), NextUnbounded(u, c), c.now) && AtLeast(m, u, c.now)
    ensures Same(m, u, from) && (c.Failed? ==> c.evicted == {}) ==>
              Same(Next(m, c), NextUnbounded(u, c), c.now) && Same(m, u, c.now)
  {
    hide Next, NextUnbounded, Legal;
    var same := Same(m, u, from) && (c.Failed? ==> c.evicted == {});
    forall p
      ensures Tokens(m, p, c.now) >= Tokens(u, p, c.now)
      ensures Tokens(Next(m, c), p, c.now) >= Tokens(NextUnbounded(u, c), p, c.now)
      ensures same ==> Tokens(m, p, c.now) == Tokens(u, p, c.now)
      ensures same ==> Tokens(Next(m, c), p, c.now) == Tokens(NextUnbounded(u, c), p, c.now)
    {
      hide Tokens;
      TokensLater(m, p, from, c.now);
      TokensLater(u, p, from, c.now);
      TokensAfter(m, c, p);
      TokensAfterUnbounded(u, c, p);
      assert Tokens(m, p, from) >= Tokens(u, p, from);
    }
    TokensAfter(m, c, 0);
    TokensAfterUnbounded(u, c, 0);
  }

  lemma LaterKeeps(m: Buckets, u: Buckets, s: real, t: real)
    requires Valid(m, s) && Valid(u, s) && AtLeast(m, u, s) && s <= t
    ensures AtLeast(m, u, t) && (Same(m, u, s) ==> Same(m, u, t))
  {
    hide Valid;
    forall p ensures Tokens(m, p, t) >= Tokens(u, p, t) && (Same(m, u, s) ==> Tokens(m, p, t) == Tokens(u, p, t)) {
      hide Tokens;
      TokensLater(m, p, s, t);
      TokensLater(u, p, s, t);
      assert Tokens(m, p, s) >= Tokens(u, p, s);
    }
  }

  lemma {:induction false} TokensRefine(m: Buckets, u: Buckets, calls: seq<Call>, from: real, to: real)
    requires Valid(m, from) && Valid(u, from) && AtLeast(m, u, from)
    requires Timed(calls, from, to) && LegalRun(m, calls)
    ensures AtLeast(Run(m, calls), RunUnbounded(u, calls), to)
    ensures Same(m, u, from) && NoEviction(calls) ==> Same(Run(m, calls), RunUnbounded(u, calls), to)
    decreases |calls|
  {
    hide AtLeast, Same, Next, NextUnbounded, Legal, Valid;
    if calls == [] {
      LaterKeeps(m, u, from, to);
    } else {
      var c, rest := calls[0], calls[1..];
      assert c in calls && forall x :: x in rest ==> x in calls;
      CallKeepsAtLeast(m, u, c, from);
      TokensRefine(Next(m, c), NextUnbounded(u, c), rest, c.now, to);
    }
  }

  lemma CapacityRefines(m: Buckets, u: Buckets, p: Peer, now: real)
    requires AtLeast(m, u, now)
    ensures HasCapacity(u, p, now) ==> HasCapacity(m, p, now)
    ensures Same(m, u, now) ==> HasCapacity(u, p, now) == HasCapacity(m, p, now)
  {
  }

  /** Each answer of the unbounded limiter implies the bounded one's. */
  ghost predicate Implied(b: seq<bool>, a: seq<bool>) {
    |a| == |b| && forall i :: 0 <= i < |a| && b[i] ==> a[i]
  }

  lemma {:induction false} AnswersRefine(m: Buckets, u: Buckets, calls: seq<Call>, from: real, to: real)
    requires Valid(m, from) && Valid(u, from) && AtLeast(m, u, from)
    requires Timed(calls, from, to) && LegalRun(m, calls)
    ensures Implied(AnswersUnbounded(u, calls), Answers(m, calls))
    ensures Same(m, u, from) && NoEviction(calls) ==> Answers(m, calls) == AnswersUnbounded(u, calls)
    decreases |calls|
  {
    hide AtLeast, Same, Next, NextUnbounded, Legal, Valid, HasCapacity;
    if calls != [] {
      var c, rest := calls[0], calls[1..];
      assert c in calls && forall x :: x in rest ==> x in calls;
      CallKeepsAtLeast(m, u, c, from);
      CapacityRefines(m, u, c.peer, c.now);
      AnswersRefine(Next(m, c), NextUnbounded(u, c), rest, c.now, to);
    }
  }

  /**
    The bounded limiter refines the unbounded one. Over any legal run it leaves every peer at least as
    many tokens and admits every attempt the unbounded one admits; while no peer has been forcibly
    evicted, tokens and answers are the same.
   */
  lemma Refines(calls: seq<Call>, from: real, to: real)
    requires Timed(calls, from, to) && LegalRun(map[], calls)
    ensures AtLeast(Run(map[], calls), RunUnbounded(map[], calls), to)
    ensures Implied(AnswersUnbounded(map[], calls), Answers(map[], calls))
    ensures NoEviction(calls) ==>
              && Same(Run(map[], calls), RunUnbounded(map[], calls), to)
              && Answers(map[], calls) == AnswersUnbounded(map[], calls)
  {
    TokensRefine(map[], map[], calls, from, to);
    AnswersRefine(map[], map[], calls, from, to);
  }

  // ----- the rate bound ------------------------------------------------------------------------

  /** Both front ends record a failure only after asking for capacity; `p` is never forcibly evicted. */
  ghost predicate Guarded(m: Buckets, calls: seq<Call>, p: Peer)
    decreases |calls|
  {
    calls == [] ||
    (var c := calls[0];
     && (c.Failed? && c.peer == p ==> HasCapacity(m, p, c.now))
     && (c.Failed? ==> p !in c.evicted)
     && Guarded(Next(m, c), calls[1..], p))
  }

  function Failures(calls: seq<Call>, p: Peer): nat
    decreases |calls|
  {
    if calls == [] then 0
    else (if calls[0].Failed? && calls[0].peer == p then 1 else 0) + Failures(calls[1..], p)
  }

  /** Conservation: what a peer has, plus what it spent, is never more than what it had plus the refill. */
  lemma {:induction false} TokensSpent(m: Buckets, calls: seq<Call>, p: Peer, from: real, to: real)
    requires Valid(m, from) && Timed(calls, from, to) && LegalRun(m, calls) && Guarded(m, calls, p)
    ensures Tokens(Run(m, calls), p, to) + Failures(calls, p) as real
            <= Tokens(m, p, from) + (to - from) * (5.0 / 60.0)
    ensures Tokens(Run(m, calls), p, to) >= 0.0
    decreases |calls|
  {
    hide Tokens, Next, Legal, Valid;
    if calls == [] {
      TokensLater(m, p, from, to);
    } else {
      var c, rest := calls[0], calls[1..];
      TokensLater(m, p, from, c.now);
      ValidLater(m, from, c.now);
      TokensAfter(m, c, p);
      TokensSpent(Next(m, c), rest, p, c.now, to);
    }
  }

  lemma ValidLater(m: Buckets, s: real, t: real)
    requires Valid(m, s) && s <= t
    ensures Valid(m, t)
  {
  }

  /** In any window of `to - from` seconds a guarded peer gets at most five failures plus one per twelve seconds. */
  lemma FailureRateBound(m: Buckets, calls: seq<Call>, p: Peer, from: real, to: real)
    requires Valid(m, from) && Timed(calls, from, to) && LegalRun(m, calls) && Guarded(m, calls, p)
    ensures Failures(calls, p) as real <= 5.0 + (to - from) / 12.0
  {
    TokensSpent(m, calls, p, from, to);
    TokensLater(m, p, from, from);
  }

  /**
    Check-then-record, with anyone else's calls anywhere in between: `p` records a failure only when its own last
    question was answered yes (`granted`) and it has recorded nothing since.
   */
  ghost predicate CheckThenRecord(m: Buckets, calls: seq<Call>, p: Peer, granted: bool)
    decreases |calls|
  {
    calls == [] ||
    (var c, rest := calls[0], calls[1..];
     if c.peer != p then CheckThenRecord(Next(m, c), rest, p, granted)
     else if c.Asked? then CheckThenRecord(Next(m, c), rest, p, HasCapacity(m, p, c.now))
     else granted && CheckThenRecord(Next(m, c), rest, p, false))
  }

  /** A yes does not wear off: other peers' calls take nothing from `p`, and time only adds. */
  lemma {:induction false} CheckedIsGuarded(
    m: Buckets, calls: seq<Call>, p: Peer, granted: bool, from: real, to: real)
    requires Valid(m, from) && Timed(calls, from, to) && LegalRun(m, calls) && CheckThenRecord(m, calls, p, granted)
    requires (granted ==> HasCapacity(m, p, from)) && forall c :: c in calls && c.Failed? ==> p !in c.evicted
    ensures Guarded(m, calls, p)
    decreases |calls|
  {
    hide Tokens, Next, Legal, Valid;
    if calls != [] {
      var c, rest := calls[0], calls[1..];
      assert c in calls && forall x :: x in rest ==> x in calls;
      TokensLater(m, p, from, c.now);
      ValidLater(m, from, c.now);
      TokensAfter(m, c, p);
      var next := if c.peer != p then granted else c.Asked? && HasCapacity(m, p, c.now);
      CheckedIsGuarded(Next(m, c), rest, p, next, c.now, to);
    }
  }

  /** The rate bound for a peer that checks before it records, whatever the others do meanwhile. */
  lemma CheckedRateBound(m: Buckets, calls: seq<Call>, p: Peer, from: real, to: real)
    requires Valid(m, from) && Timed(calls, from, to) && LegalRun(m, calls) && CheckThenRecord(m, calls, p, false)
    requires forall c :: c in calls && c.Failed? ==> p !in c.evicted
    ensures Failures(calls, p) as real <= 5.0 + (to - from) / 12.0
  {
    CheckedIsGuarded(m, calls, p, false, from, to);
    FailureRateBound(m, calls, p, from, to);
  }

  /**
    Flooding from other sources cannot flush a throttle: a throttled peer is evicted only when the map
    is full and every other one of its 4096 peers is throttled at that instant too.
   */
  lemma FloodingCannotFlushAThrottle(m: Buckets, c: Call, victim: Peer)
    requires |m| <= 4096
    requires Legal(m, c) && c.Failed? && victim in c.evicted && !HasCapacity(m, victim, c.now)
    ensures |m| == 4096 && c.evicted == {victim}
    ensures forall q :: q in m ==> !HasCapacity(m, q, c.now)
  {
    hide HasCapacity, Tokens;
    var kept := Kept(m, c.peer, c.now);
    FullMapKeepsAll(m, kept);
    OneEvicted(kept, c.evicted, victim);
    hide Kept;
    assert forall q :: q in m && q != victim ==> Tokens(m, q, c.now) <= Tokens(m, victim, c.now);
    CapacityByTokens(m, victim, c.now);
  }

  lemma CapacityByTokens(m: Buckets, victim: Peer, now: real)
    requires !HasCapacity(m, victim, now)
    requires forall q :: q in m && q != victim ==> Tokens(m, q, now) <= Tokens(m, victim, now)
    ensures forall q :: q in m ==> !HasCapacity(m, q, now)
  {
  }

  lemma FullMapKeepsAll(m: Buckets, kept: Buckets)
    requires |m| <= MAX_TRACKED_PEERS <= |kept| && kept.Keys <= m.Keys
    ensures |m| == MAX_TRACKED_PEERS == |kept| && kept.Keys == m.Keys
  {
    SubsetSize(kept.Keys, m.Keys);
    forall q | q in m ensures q in kept {
      if q !in kept {
        SubsetSize(kept.Keys, m.Keys - {q});
      }
    }
  }

  lemma OneEvicted(kept: Buckets, evicted: set<Peer>, victim: Peer)
    requires evicted <= kept.Keys && |kept| == MAX_TRACKED_PEERS && |kept - evicted| == MAX_TRACKED_PEERS - 1
        && victim in evicted
    ensures evicted == {victim}
  {
    assert kept.Keys == (kept - evicted).Keys + evicted;
    assert |evicted| == 1;
    forall e | e in evicted ensures e == victim {
      if e != victim {
        SubsetSize({e, victim}, evicted);
      }
    }
  }

  // ----- "five per minute" ---------------------------------------------------------------------

  /** `n` failures twelve seconds apart, the first at `t + 12`. */
  function Drip(p: Peer, t: real, n: nat): seq<Call>
    decreases n
  {
    if n == 0 then [] else [Failed(p, t + 12.0, {})] + Drip(p, t + 12.0, n - 1)
  }

  /** `k` failures at once, then a drip of `n`. */
  function BurstThenDrip(p: Peer, k: nat, n: nat): seq<Call> {
    if k == 0 then Drip(p, 0.0, n) else [Failed(p, 0.0, {})] + BurstThenDrip(p, k - 1, n)
  }

  /** A run that the limiter allows, charged against one peer. */
  ghost predicate Allowed(m: Buckets, calls: seq<Call>, p: Peer, from: real, to: real, failures: nat) {
    LegalRun(m, calls) && Guarded(m, calls, p) && Timed(calls, from, to) && Failures(calls, p) == failures
  }

  lemma OneMore(m: Buckets, p: Peer, from: real, now: real, rest: seq<Call>, to: real, n: nat)
    requires |m| <= 1 && HasCapacity(m, p, now) && from <= now
    requires Allowed(m[p := Charged(m, p, now)], rest, p, now, to, n)
    ensures Allowed(m, [Failed(p, now, {})] + rest, p, from, to, n + 1)
  {
    var c := Failed(p, now, {});
    assert ([c] + rest)[1..] == rest;
    assert m - {} == m;
    assert Next(m, c) == m[p := Charged(m, p, now)];
  }

  /** Twelve seconds refill exactly one token. */
  lemma TwelveSeconds(p: Peer, t: real)
    ensures var m := map[p := Bucket(0.0, t)];
            HasCapacity(m, p, t + 12.0) && Charged(m, p, t + 12.0) == Bucket(0.0, t + 12.0)
  {
  }

  lemma {:induction false} DripAllowed(p: Peer, t: real, n: nat, to: real)
    requires to == t + 12.0 * n as real
    ensures Allowed(map[p := Bucket(0.0, t)], Drip(p, t, n), p, t, to, n)
    decreases n
  {
    if n > 0 {
      hide Allowed, Charged, HasCapacity;
      var m := map[p := Bucket(0.0, t)];
      TwelveSeconds(p, t);
      assert m[p := Charged(m, p, t + 12.0)] == map[p := Bucket(0.0, t + 12.0)];
      DripAllowed(p, t + 12.0, n - 1, to);
      OneMore(m, p, t, t + 12.0, Drip(p, t + 12.0, n - 1), to, n - 1);
    }
  }

  lemma {:induction false} BurstAllowed(p: Peer, k: nat, n: nat)
    requires k <= 5
    ensures Allowed(map[p := Bucket(k as real, 0.0)], BurstThenDrip(p, k, n), p, 0.0, 12.0 * n as real, k + n)
  {
    if k == 0 {
      DripAllowed(p, 0.0, n, 12.0 * n as real);
    } else {
      var m := map[p := Bucket(k as real, 0.0)];
      BurstAllowed(p, k - 1, n);
      assert m[p := Charged(m, p, 0.0)] == map[p := Bucket((k - 1) as real, 0.0)];
      OneMore(m, p, 0.0, 0.0, BurstThenDrip(p, k - 1, n), 12.0 * n as real, k - 1 + n);
    }
  }

  /**
    The bound is attained for every window length: from an empty limiter a peer gets `5 + n` failures
    in `12 * n` seconds, so ten, not five, in the first minute.
   */
  lemma BoundIsTight(p: Peer, n: nat)
    ensures Allowed(map[], BurstThenDrip(p, 5, n), p, 0.0, 12.0 * n as real, 5 + n)
  {
    var m: Buckets := map[];
    BurstAllowed(p, 4, n);
    assert m[p := Charged(m, p, 0.0)] == map[p := Bucket(4.0, 0.0)];
    OneMore(m, p, 0.0, 0.0, BurstThenDrip(p, 4, n), 12.0 * n as real, 4 + n);
  }

  lemma {:induction false} TimedLater(calls: seq<Call>, from: real, mid: real, to: real)
    requires Timed(calls, from, mid) && mid <= to
    ensures Timed(calls, from, to)
    decreases |calls|
  {
    if calls != [] {
      TimedLater(calls[1..], calls[0].now, mid, to);
    }
  }

  /** In every window of this many seconds, at most five failures. */
  ghost predicate FiveAtMost(window: real) {
    forall m: Buckets, calls: seq<Call>, p: Peer, from: real ::
      Valid(m, from) && Timed(calls, from, from + window) && LegalRun(m, calls) && Guarded(m, calls, p) ==>
        Failures(calls, p) <= 5
  }

  /** So "five per window" is true of the limiter exactly for windows shorter than twelve seconds. */
  lemma FiveAtMostIff(window: real)
    requires window >= 0.0
    ensures FiveAtMost(window) <==> window < 12.0
  {
    hide Valid, Timed, LegalRun, Guarded, Failures;
    if window < 12.0 {
      forall m: Buckets, calls: seq<Call>, p: Peer, from: real
        | Valid(m, from) && Timed(calls, from, from + window) && LegalRun(m, calls) && Guarded(m, calls, p)
        ensures Failures(calls, p) <= 5
      {
        FailureRateBound(m, calls, p, from, from + window);
      }
    } else {
      SixInTwelve(window);
    }
  }

  lemma SixInTwelve(window: real)
    requires window >= 12.0
    ensures !FiveAtMost(window)
  {
    var p: Peer :| true;
    var m: Buckets, calls := map[], BurstThenDrip(p, 5, 1);
    BoundIsTight(p, 1);
    TimedLater(calls, 0.0, 12.0, window);
    assert Valid(m, 0.0) && Timed(calls, 0.0, 0.0 + window) && Failures(calls, p) == 6;
  }

  // ----- the limiter as it runs ----------------------------------------------------------------

  /** Some tracked peer with the most tokens; which one, among equals, is up to the map's order. */
  method MostRefilled(m: Buckets, now: real) returns (best: Peer)
    requires m != map[]
    ensures best in m && forall q :: q in m ==> Tokens(m, q, now) <= Tokens(m, best, now)
  {
    best :| best in m;
    var rest := m.Keys - {best};
    while rest != {}
      invariant rest <= m.Keys && best in m
      invariant forall q :: q in m && q !in rest ==> Tokens(m, q, now) <= Tokens(m, best, now)
      decreases rest
    {
      var q :| q in rest;
      if Tokens(m, best, now) <= Tokens(m, q, now) {
        best := q;
      }
      rest := rest - {q};
    }
  }

  /** The forced-eviction loop: drops least-throttled peers until one slot is free. */
  method MakeRoom(kept: Buckets, now: real) returns (left: Buckets)
    ensures left == kept - (kept.Keys - left.Keys)
    ensures |left| == if |kept| >= MAX_TRACKED_PEERS then MAX_TRACKED_PEERS - 1 else |kept|
    ensures |kept| < MAX_TRACKED_PEERS ==> left == kept
    ensures forall e, q :: e in kept.Keys - left.Keys && q in left ==> Tokens(kept, q, now) <= Tokens(kept, e, now)
  {
    left := kept;
    while |left| >= MAX_TRACKED_PEERS
      invariant left == kept - (kept.Keys - left.Keys)
      invariant |kept| >= MAX_TRACKED_PEERS ==> |left| >= MAX_TRACKED_PEERS - 1
      invariant |kept| < MAX_TRACKED_PEERS ==> left == kept
      invariant forall e, q :: e in kept.Keys - left.Keys && q in left ==> Tokens(kept, q, now) <= Tokens(kept, e, now)
      decreases |left|
    {
      var evict := MostRefilled(left, now);
      assert forall q :: q in left ==> Tokens(left, q, now) == Tokens(kept, q, now);
      assert (left - {evict}).Keys == left.Keys - {evict};
      left := left - {evict};
    }
  }

  lemma NoRoomNeeded(m: Buckets, p: Peer, now: real)
    requires !MustMakeRoom(m, p)
    ensures Legal(m, Failed(p, now, {})) && Next(m, Failed(p, now, {})) == m[p := Charged(m, p, now)]
  {
  }

  lemma RoomMadeLegally(m: Buckets, p: Peer, now: real, left: Buckets, evicted: set<Peer>)
    requires MustMakeRoom(m, p)
    requires var kept := Retained(m, now);
             && evicted == kept.Keys - left.Keys && left == kept - evicted
             && (if |kept| >= MAX_TRACKED_PEERS then |left| == MAX_TRACKED_PEERS - 1 else left == kept)
             && forall e, q :: e in evicted && q in left ==> Tokens(kept, q, now) <= Tokens(kept, e, now)
    ensures Legal(m, Failed(p, now, evicted)) && Next(m, Failed(p, now, evicted)) == left[p := Charged(m, p, now)]
  {
    RetainedTokens(m, now);
    hide Tokens;
  }

  lemma RetainedTokens(m: Buckets, now: real)
    ensures forall q :: q in Retained(m, now) ==> Tokens(Retained(m, now), q, now) == Tokens(m, q, now)
  {
  }

  class AuthRateLimiter {
    var buckets: Buckets

    constructor ()
      ensures buckets == map[]
    {
      buckets := map[];
    }

    method HasCapacityAt(peer: Peer, now: real) returns (ok: bool)
      ensures ok == HasCapacity(buckets, peer, now)
    {
      if peer in buckets {
        ok := Refilled(buckets[peer], now).tokens >= 1.0;
      } else {
        ok := true;
      }
    }

    method RecordFailureAt(peer: Peer, now: real) returns (ghost call: Call)
      modifies this
      ensures call.Failed? && call.peer == peer && call.now == now
      ensures Legal(old(buckets), call) && buckets == Next(old(buckets), call)
      ensures |old(buckets)| <= 4096 ==> |buckets| <= 4096
    {
      hide Tokens, Consumed, Refilled, Legal, Next, Retained;
      ghost var evicted: set<Peer> := {};
      var next := Consumed(if peer in buckets then Refilled(buckets[peer], now) else Full(now));
      if |buckets| >= MAX_TRACKED_PEERS && peer !in buckets {
        var kept := Retained(buckets, now);
        buckets := MakeRoom(kept, now);
        evicted := kept.Keys - buckets.Keys;
        RoomMadeLegally(old(buckets), peer, now, buckets, evicted);
      } else {
        NoRoomNeeded(old(buckets), peer, now);
      }
      call := Failed(peer, now, evicted);
      buckets := buckets[peer := next];
      if |old(buckets)| <= MAX_TRACKED_PEERS {
        NeverTracksMore(old(buckets), call);
      }
    }
  }
}
