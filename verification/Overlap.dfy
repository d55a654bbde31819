/**
  Attempts that overlap. Each attempt asks the limiter at one instant and, if it ends in a wrong pair, is charged at a
  later one; in between, any number of other attempts ask and are charged. Only one peer's own attempts are taken one
  at a time, and only for that peer is anything claimed.
 */
module Overlap {
  import opened Limiter
  import opened FrontEnds

  /** Attempt `k` asks, or ends; `evicted` is what the map dropped if it was charged. */
  datatype Event = Ask(k: nat) | End(k: nat, evicted: set<Peer>)

  /** The limiter, and what each attempt still under way was answered. */
  datatype State = State(buckets: Buckets, open: map<nat, bool>)

  predicate Enabled(attempts: seq<Attempt>, s: State, e: Event) {
    e.k < |attempts| && if e.Ask? then e.k !in s.open else e.k in s.open
  }

  /** The call an event makes, if any: an end is charged exactly when the answer it got makes it a wrong pair. */
  function CallsOf(attempts: seq<Attempt>, s: State, e: Event): seq<Call>
    requires Enabled(attempts, s, e)
  {
    var a := attempts[e.k];
    match e
    case Ask(_) => [Asked(a.peer, a.asked)]
    case End(k, evicted) => if VerdictOn(a, s.open[k]) == WrongPair then [Failed(a.peer, a.failed, evicted)] else []
  }

  function Step(attempts: seq<Attempt>, s: State, e: Event): State
    requires Enabled(attempts, s, e)
  {
    var a := attempts[e.k];
    State(Run(s.buckets, CallsOf(attempts, s, e)),
          if e.Ask? then s.open[e.k := HasCapacity(s.buckets, a.peer, a.asked)] else s.open - {e.k})
  }

  ghost predicate Runs(attempts: seq<Attempt>, s: State, events: seq<Event>)
    decreases |events|
  {
    events == [] || (Enabled(attempts, s, events[0]) && Runs(attempts, Step(attempts, s, events[0]), events[1..]))
  }

  function AllCalls(attempts: seq<Attempt>, s: State, events: seq<Event>): seq<Call>
    requires Runs(attempts, s, events)
    decreases |events|
  {
    if events == [] then []
    else CallsOf(attempts, s, events[0]) + AllCalls(attempts, Step(attempts, s, events[0]), events[1..])
  }

  /** `p` has an attempt under way. */
  ghost predicate Busy(attempts: seq<Attempt>, s: State, p: Peer) {
    exists k: nat :: Pending(attempts, s, p, k)
  }

  /** `p` takes its own attempts one at a time. */
  ghost predicate OneAtATime(attempts: seq<Attempt>, s: State, events: seq<Event>, p: Peer)
    requires Runs(attempts, s, events)
    decreases |events|
  {
    events == [] ||
    (var e := events[0];
     && (e.Ask? && attempts[e.k].peer == p ==> !Busy(attempts, s, p))
     && OneAtATime(attempts, Step(attempts, s, e), events[1..], p))
  }

  /** How many of `p`'s attempts ended in a wrong pair. */
  ghost function WrongEnds(attempts: seq<Attempt>, s: State, events: seq<Event>, p: Peer): nat
    requires Runs(attempts, s, events)
    decreases |events|
  {
    if events == [] then 0
    else
      var e := events[0];
      var wrong := e.End? && attempts[e.k].peer == p && VerdictOn(attempts[e.k], s.open[e.k]) == WrongPair;
      (if wrong then 1 else 0) + WrongEnds(attempts, Step(attempts, s, e), events[1..], p)
  }

  // ----- a schedule is check-then-record ---------------------------------------------------------

  /** Attempt `k` is `p`'s, and under way. */
  predicate Pending(attempts: seq<Attempt>, s: State, p: Peer, k: nat) {
    k in s.open && k < |attempts| && attempts[k].peer == p
  }

  /** At most one attempt of `p` is under way, and `granted` is what it was answered. */
  ghost predicate Follows(attempts: seq<Attempt>, s: State, p: Peer, granted: bool) {
    && (forall j: nat, k: nat :: Pending(attempts, s, p, j) && Pending(attempts, s, p, k) ==> j == k)
    && (granted <==> exists k: nat :: Pending(attempts, s, p, k) && s.open[k])
  }

  lemma {:induction false} GrantIsMonotone(m: Buckets, calls: seq<Call>, p: Peer)
    requires CheckThenRecord(m, calls, p, false)
    ensures CheckThenRecord(m, calls, p, true)
    decreases |calls|
  {
    hide Next;
    if calls != [] && calls[0].peer != p {
      GrantIsMonotone(Next(m, calls[0]), calls[1..], p);
    }
  }

  /** What `granted` is after one event. */
  ghost function StillGranted(attempts: seq<Attempt>, s: State, e: Event, p: Peer, granted: bool): bool
    requires Enabled(attempts, s, e)
  {
    var a := attempts[e.k];
    if a.peer != p then granted else e.Ask? && HasCapacity(s.buckets, p, a.asked)
  }

  lemma FollowsOn(attempts: seq<Attempt>, s: State, e: Event, p: Peer, granted: bool)
    requires Enabled(attempts, s, e) && Follows(attempts, s, p, granted)
    requires e.Ask? && attempts[e.k].peer == p ==> !Busy(attempts, s, p)
    ensures Follows(attempts, Step(attempts, s, e), p, StillGranted(attempts, s, e, p, granted))
  {
    hide HasCapacity, VerdictOn, Run;
    var t := Step(attempts, s, e);
    assert forall k: nat :: k != e.k ==> Pending(attempts, t, p, k) == Pending(attempts, s, p, k);
    assert Pending(attempts, t, p, e.k) <==> e.Ask? && attempts[e.k].peer == p;
    if attempts[e.k].peer != p {
      assert forall k: nat :: Pending(attempts, t, p, k) <==> Pending(attempts, s, p, k);
      assert forall k: nat :: Pending(attempts, s, p, k) ==> t.open[k] == s.open[k];
      if k: nat :| Pending(attempts, s, p, k) && s.open[k] {
        assert Pending(attempts, t, p, k) && t.open[k];
      }
    } else if e.End? {
      assert Pending(attempts, s, p, e.k);
    }
  }

  /** A wrong pair is only noticed of an attempt that was answered yes, so its own question was. */
  lemma ChargeWasGranted(attempts: seq<Attempt>, s: State, e: Event, p: Peer, granted: bool)
    requires Enabled(attempts, s, e) && Follows(attempts, s, p, granted) && e.End? && attempts[e.k].peer == p
    requires VerdictOn(attempts[e.k], s.open[e.k]) == WrongPair
    ensures granted
  {
    hide VerdictOn;
    VerdictMeans(attempts[e.k], s.open[e.k]);
    assert Pending(attempts, s, p, e.k);
  }

  lemma {:induction false} ScheduleChecks(
    attempts: seq<Attempt>, s: State, events: seq<Event>, p: Peer, granted: bool)
    requires Runs(attempts, s, events) && OneAtATime(attempts, s, events, p) && Follows(attempts, s, p, granted)
    ensures CheckThenRecord(s.buckets, AllCalls(attempts, s, events), p, granted)
    ensures Failures(AllCalls(attempts, s, events), p) == WrongEnds(attempts, s, events, p)
    decreases |events|
  {
    hide HasCapacity, VerdictOn, Run, Next, Follows;
    if events != [] {
      var e := events[0];
      var calls, rest := CallsOf(attempts, s, e), AllCalls(attempts, Step(attempts, s, e), events[1..]);
      FollowsOn(attempts, s, e, p, granted);
      ScheduleChecks(attempts, Step(attempts, s, e), events[1..], p, StillGranted(attempts, s, e, p, granted));
      if calls == [] {
        assert calls + rest == rest && Run(s.buckets, []) == s.buckets by { NothingMore(s.buckets); }
        if granted {
          GrantMayLapse(s.buckets, rest, p, StillGranted(attempts, s, e, p, granted));
        }
      } else {
        OneMoreCall(s.buckets, calls[0]);
        assert calls == [calls[0]] && (calls + rest)[1..] == rest;
        if e.End? && attempts[e.k].peer == p {
          ChargeWasGranted(attempts, s, e, p, granted);
        }
      }
    }
  }

  lemma GrantMayLapse(m: Buckets, calls: seq<Call>, p: Peer, granted: bool)
    requires CheckThenRecord(m, calls, p, granted)
    ensures CheckThenRecord(m, calls, p, true)
  {
    if !granted {
      GrantIsMonotone(m, calls, p);
    }
  }

  /**
    The rate bound with everyone else overlapping: whatever other peers' attempts do meanwhile, a peer that takes its
    own one at a time, and is never forcibly evicted, ends at most five of them, plus one for every twelve seconds, in
    a wrong pair; and the limiter never tracks more than 4096 peers.
   */
  lemma OverlappingRateBound(
    attempts: seq<Attempt>, m: Buckets, events: seq<Event>, p: Peer, from: real, to: real)
    requires Valid(m, from) && Runs(attempts, State(m, map[]), events)
    requires OneAtATime(attempts, State(m, map[]), events, p)
    requires var calls := AllCalls(attempts, State(m, map[]), events);
             && Timed(calls, from, to) && LegalRun(m, calls) && forall c :: c in calls && c.Failed? ==> p !in c.evicted
    ensures WrongEnds(attempts, State(m, map[]), events, p) as real <= 5.0 + (to - from) / 12.0
    ensures |m| <= 4096 ==> |Run(m, AllCalls(attempts, State(m, map[]), events))| <= 4096
  {
    var s := State(m, map[]);
    assert Follows(attempts, s, p, false);
    hide Follows, CheckThenRecord, Run, LegalRun, Timed, Failures, Valid;
    ScheduleChecks(attempts, s, events, p, false);
    CheckedRateBound(m, AllCalls(attempts, s, events), p, from, to);
    if |m| <= 4096 {
      RunTracksFew(m, AllCalls(attempts, s, events));
    }
  }
}
