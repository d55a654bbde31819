/**
  The tunnel state machine behind the management channel, and the coalescing cell it publishes to.
  A consumer of the cell sees only its latest value; the generation counter is what must give away
  anything it missed.
 */
module Tunnel {
  import opened Wrappers

  const U64_MAX: nat := 0xFFFF_FFFF_FFFF_FFFF

  datatype UpDown =
    | Up
    | Down
    | EnvBegin
    | EnvEnd
    | Env(key: string, value: string)
    | Other(text: string)

  /** The events the tracker distinguishes; every other notification is `Unrelated`. */
  datatype Event = State(name: string) | Fatal | UpDownLine(line: UpDown) | Unrelated

  datatype TunnelIdentity = TunnelIdentity(
    dev: string, devType: Option<string>, ifconfigLocal: Option<string>, ifconfigIpv6Local: Option<string>)

  // ----- the up-block collector ----------------------------------------------------------------

  datatype Collector = Collector(inUpBlock: bool, env: seq<(string, string)>)

  const EMPTY_COLLECTOR := Collector(false, [])

  /** The first entry for the key decides, and an empty value counts as none. */
  function Get(env: seq<(string, string)>, key: string): Option<string> {
    if env == [] then None
    else if env[0].0 == key then (if env[0].1 == "" then None else Some(env[0].1))
    else Get(env[1..], key)
  }

  ghost predicate FirstEntry(env: seq<(string, string)>, key: string, i: int) {
    0 <= i < |env| && env[i].0 == key && forall j :: 0 <= j < i ==> env[j].0 != key
  }

  /** The environment says this of a key: the value of its first entry, or nothing if that is empty or missing. */
  ghost predicate Says(env: seq<(string, string)>, key: string, value: Option<string>) {
    match value
    case Some(v) => v != "" && exists i :: FirstEntry(env, key, i) && env[i].1 == v
    case None => forall i :: FirstEntry(env, key, i) ==> env[i].1 == ""
  }

  /** The lookup, without its recursion. */
  lemma {:induction false} GetIsFirst(env: seq<(string, string)>, key: string, value: Option<string>)
    ensures Get(env, key) == value <==> Says(env, key, value)
  {
    if env != [] {
      var rest := env[1..];
      GetIsFirst(rest, key, value);
      if env[0].0 == key {
        assert FirstEntry(env, key, 0) && forall i :: FirstEntry(env, key, i) ==> i == 0;
      } else {
        assert forall j :: 0 < j < |env| ==> env[j] == rest[j - 1];
        forall i: int ensures FirstEntry(env, key, i + 1) <==> FirstEntry(rest, key, i) {
          assert FirstEntry(rest, key, i) ==> forall j :: 0 < j < i + 1 ==> env[j].0 == rest[j - 1].0;
          assert FirstEntry(env, key, i + 1) ==> forall j :: 0 <= j < i ==> rest[j].0 == env[j + 1].0;
        }
        if i :| FirstEntry(env, key, i) {
          assert FirstEntry(rest, key, i - 1) && env[i] == rest[i - 1];
        }
        if i :| FirstEntry(rest, key, i) {
          assert FirstEntry(env, key, i + 1) && env[i + 1] == rest[i];
        }
      }
    }
  }

  function IdentityOf(env: seq<(string, string)>): Option<TunnelIdentity> {
    match Get(env, "dev")
    case None => None
    case Some(dev) =>
      Some(TunnelIdentity(dev, Get(env, "dev_type"), Get(env, "ifconfig_local"), Get(env, "ifconfig_ipv6_local")))
  }

  /** What an up-block's entries announce: each part of the identity under its own key, and a device there must be. */
  ghost predicate Announces(env: seq<(string, string)>, id: TunnelIdentity) {
    && Says(env, "dev", Some(id.dev)) && Says(env, "dev_type", id.devType)
    && Says(env, "ifconfig_local", id.ifconfigLocal) && Says(env, "ifconfig_ipv6_local", id.ifconfigIpv6Local)
  }

  lemma AnnouncesIff(env: seq<(string, string)>, id: TunnelIdentity)
    ensures IdentityOf(env) == Some(id) <==> Announces(env, id)
  {
    hide Get, Says;
    GetIsFirst(env, "dev", Some(id.dev));
    GetIsFirst(env, "dev_type", id.devType);
    GetIsFirst(env, "ifconfig_local", id.ifconfigLocal);
    GetIsFirst(env, "ifconfig_ipv6_local", id.ifconfigIpv6Local);
  }

  datatype Outcome = Nothing | WentUp(identity: TunnelIdentity) | WentDown | MissingDev

  function Collect(c: Collector, line: UpDown): (Collector, Outcome) {
    match line
    case Up => (Collector(true, []), Nothing)
    case Down => (EMPTY_COLLECTOR, WentDown)
    case EnvBegin => (c, Nothing)
    case Env(k, v) => (c.(env := c.env + [(k, v)]), Nothing)
    case EnvEnd =>
      if !c.inUpBlock then (EMPTY_COLLECTOR, Nothing)
      else (EMPTY_COLLECTOR, match IdentityOf(c.env) case None => MissingDev case Some(id) => WentUp(id))
    case Other(_) => (EMPTY_COLLECTOR, Nothing)
  }

  // ----- the tracker ---------------------------------------------------------------------------

  datatype Tracker = Tracker(connected: bool, updown: Collector, identity: Option<TunnelIdentity>)

  const DEFAULT_TRACKER := Tracker(false, EMPTY_COLLECTOR, None)

  datatype Observed = Quiet(next: Tracker) | Changed(next: Tracker) | FoldError

  function Transition(t: Tracker, connected: bool): Observed {
    if connected == t.connected then Quiet(t)
    else Changed(Tracker(connected, t.updown, if connected then t.identity else None))
  }

  function Observe(t: Tracker, e: Event): Observed {
    match e
    case State(name) => Transition(t, name == "CONNECTED")
    case Fatal => Transition(t, false)
    case Unrelated => Quiet(t)
    case UpDownLine(line) =>
      var (c, outcome) := Collect(t.updown, line);
      match outcome
      case Nothing => Quiet(t.(updown := c))
      case WentUp(id) => Changed(Tracker(t.connected, c, Some(id)))
      case WentDown => Changed(Tracker(t.connected, c, None))
      case MissingDev => FoldError
  }

  // ----- the published cell --------------------------------------------------------------------

  datatype TunnelState = TunnelState(connected: bool, identity: Option<TunnelIdentity>, generation: nat)

  const INITIAL_STATE := TunnelState(false, None, 0)

  function AdvancedTo(s: TunnelState, t: Tracker): TunnelState {
    TunnelState(t.connected, t.identity,
      if t.connected && !s.connected && s.generation < U64_MAX then s.generation + 1 else s.generation)
  }

  /** The channel after some events: `dead` once a fold error has torn the actor down. */
  datatype Channel = Channel(tracker: Tracker, cell: TunnelState, dead: bool)

  function Fold(c: Channel, e: Event): Channel {
    if c.dead then c
    else match Observe(c.tracker, e)
      case Quiet(t) => Channel(t, c.cell, false)
      case Changed(t) => Channel(t, AdvancedTo(c.cell, t), false)
      case FoldError => Channel(c.tracker, AdvancedTo(c.cell, DEFAULT_TRACKER), true)
  }

  function At(events: seq<Event>, n: nat): Channel
    requires n <= |events|
  {
    if n == 0 then Channel(DEFAULT_TRACKER, INITIAL_STATE, false) else Fold(At(events, n - 1), events[n - 1])
  }

  /** The watch cell the actor writes and any number of consumers read. */
  class Watch {
    var state: TunnelState

    constructor ()
      ensures state == INITIAL_STATE
    {
      state := INITIAL_STATE;
    }

    method Publish(t: Tracker) returns (modified: bool)
      modifies this
      ensures state == AdvancedTo(old(state), t)
      ensures modified <==> state != old(state)
    {
      var next := AdvancedTo(state, t);
      if next == state {
        return false;
      }
      state := next;
      modified := true;
    }

    /** Folds one event in and publishes; on a fold error subscribers are told "down" before it propagates. */
    method ObserveAndPublish(t: Tracker, e: Event) returns (r: Observed)
      modifies this
      ensures r == Observe(t, e)
      ensures Channel(if r.FoldError? then t else r.next, state, r.FoldError?) == Fold(Channel(t, old(state), false), e)
      ensures r.FoldError? ==> !state.connected && state.identity == None
    {
      r := Observe(t, e);
      match r
      case Quiet(_) =>
      case Changed(next) =>
        var _ := Publish(next);
      case FoldError =>
        var _ := Publish(DEFAULT_TRACKER);
    }
  }

  // ----- the cell mirrors the tracker ----------------------------------------------------------

  predicate Connected(events: seq<Event>, i: nat)
    requires i <= |events|
  {
    At(events, i).cell.connected
  }

  function Generation(events: seq<Event>, i: nat): nat
    requires i <= |events|
  {
    At(events, i).cell.generation
  }

  /** How often the channel entered CONNECTED in the first `n` events. */
  function Entries(events: seq<Event>, n: nat): nat
    requires n <= |events|
  {
    if n == 0 then 0
    else Entries(events, n - 1) + if !Connected(events, n - 1) && Connected(events, n) then 1 else 0
  }

  function Min(a: nat, b: nat): nat { if a < b then a else b }

  /**
    After every event, published or not, the cell holds the tracker's connectivity and identity (or
    "down" once the actor is gone), and its generation counts the entries into CONNECTED, saturating.
   */
  lemma {:induction false} CellMirrorsTracker(events: seq<Event>, n: nat)
    requires n <= |events|
    ensures var c := At(events, n);
            && (!c.dead ==> c.cell.connected == c.tracker.connected && c.cell.identity == c.tracker.identity)
            && (c.dead ==> !c.cell.connected && c.cell.identity == None)
            && c.cell.generation == Min(Entries(events, n), U64_MAX)
  {
    if n > 0 {
      CellMirrorsTracker(events, n - 1);
    }
  }

  lemma {:induction false} EntriesGrow(events: seq<Event>, i: nat, j: nat)
    requires i <= j <= |events|
    ensures Entries(events, i) <= Entries(events, j)
    ensures !Connected(events, i) && Connected(events, j) ==> Entries(events, i) < Entries(events, j)
    decreases j - i
  {
    hide At;
    if i < j {
      EntriesGrow(events, i, j - 1);
    }
  }

  /**
    Flap detection: if the generation a consumer read at `i` is the one it sees at a connected `j`, and
    has not saturated, the tunnel was connected at every event in between, `i` included.
   */
  lemma SameGenerationMeansUnbroken(events: seq<Event>, i: nat, j: nat)
    requires i <= j <= |events|
    requires Connected(events, j) && Generation(events, i) == Generation(events, j) < U64_MAX
    ensures forall k :: i <= k <= j ==> Connected(events, k)
  {
    forall k | i <= k <= j ensures Connected(events, k) {
      CellMirrorsTracker(events, i);
      CellMirrorsTracker(events, j);
      EntriesGrow(events, i, k);
      EntriesGrow(events, k, j);
    }
  }

  /**
    The generation as a flap detector, exactly: seen from `i` at a connected `j`, it is unchanged if and only
    if the tunnel was connected at every event in between, or the counter had already saturated at `i`.
   */
  lemma GenerationRevealsFlapsIff(events: seq<Event>, i: nat, j: nat)
    requires i <= j <= |events| && Connected(events, j)
    ensures Generation(events, i) == Generation(events, j) <==>
            Generation(events, i) == U64_MAX || forall k :: i <= k <= j ==> Connected(events, k)
  {
    hide At;
    CellMirrorsTracker(events, i);
    CellMirrorsTracker(events, j);
    EntriesGrow(events, i, j);
    if Generation(events, i) == Generation(events, j) < U64_MAX {
      SameGenerationMeansUnbroken(events, i, j);
    }
    if forall k :: i <= k <= j ==> Connected(events, k) {
      UnbrokenKeepsGeneration(events, i, j);
    }
  }

  // ----- the supervisor ------------------------------------------------------------------------

  /**
    What wakes the supervisor: a change of the cell, handled at whatever later event it then reads, the end of
    the cell's writer, an event that is none of its business or is lagged past, the end of the event feed.
   */
  datatype Wake = CellAt(event: nat) | CellClosed | FeedEvent | FeedClosed

  datatype Watching = StillRunning | TunnelDown | Reconnected | ChannelClosed

  predicate Wakes(events: seq<Event>, start: nat, wakes: seq<Wake>) {
    && start <= |events|
    && (forall k :: 0 <= k < |wakes| && wakes[k].CellAt? ==> start <= wakes[k].event <= |events|)
  }

  /** How one wake-up is handled. */
  function Handle(events: seq<Event>, generation: nat, w: Wake): Watching
    requires w.CellAt? ==> w.event <= |events|
  {
    match w
    case CellAt(i) =>
      if !Connected(events, i) then TunnelDown
      else if Generation(events, i) != generation then Reconnected
      else StillRunning
    case CellClosed => ChannelClosed
    case FeedEvent => StillRunning
    case FeedClosed => ChannelClosed
  }

  /** `supervise` reads the generation at event `start`; its verdict is that of the first wake-up it cannot accept. */
  function Supervision(events: seq<Event>, start: nat, wakes: seq<Wake>): Watching
    requires Wakes(events, start, wakes)
    decreases |wakes|
  {
    if wakes == [] then StillRunning
    else
      var v := Handle(events, Generation(events, start), wakes[0]);
      if v != StillRunning then v else Supervision(events, start, wakes[1..])
  }

  /** The loop of `supervise`. */
  method Supervise(events: seq<Event>, start: nat, wakes: seq<Wake>) returns (w: Watching)
    requires Wakes(events, start, wakes)
    ensures w == Supervision(events, start, wakes)
  {
    var generation := At(events, start).cell.generation;
    var k := 0;
    assert wakes[0..] == wakes;
    while k < |wakes|
      invariant 0 <= k <= |wakes|
      invariant Supervision(events, start, wakes) == Supervision(events, start, wakes[k..])
    {
      assert wakes[k..][0] == wakes[k] && wakes[k..][1..] == wakes[k + 1..];
      match wakes[k] {
        case CellAt(i) =>
          var state := At(events, i).cell;
          if !state.connected {
            return TunnelDown;
          }
          if state.generation != generation {
            return Reconnected;
          }
        case CellClosed =>
          return ChannelClosed;
        case FeedEvent =>
        case FeedClosed =>
          return ChannelClosed;
      }
      k := k + 1;
    }
    w := StillRunning;
  }

  /** A wake-up the supervisor goes on after. */
  predicate Tolerable(events: seq<Event>, generation: nat, w: Wake)
    requires w.CellAt? ==> w.event <= |events|
  {
    || w == FeedEvent
    || (w.CellAt? && Connected(events, w.event) && Generation(events, w.event) == generation)
  }

  /**
    The verdict, without the loop: running exactly when every wake-up was tolerable, else decided by the first that was
    not: a cell that is down, a cell that is up with another generation, or the end of either feed.
   */
  lemma {:induction false} SupervisionVerdict(events: seq<Event>, start: nat, wakes: seq<Wake>)
    requires Wakes(events, start, wakes)
    ensures var v, g := Supervision(events, start, wakes), Generation(events, start);
            && (v == StillRunning <==> forall k :: 0 <= k < |wakes| ==> Tolerable(events, g, wakes[k]))
            && (v != StillRunning ==> exists k :: 0 <= k < |wakes| && Ends(events, g, wakes, k, v))
    decreases |wakes|
  {
    hide At;
    var g := Generation(events, start);
    if wakes != [] {
      var rest := wakes[1..];
      assert forall k :: 0 < k < |wakes| ==> wakes[k] == rest[k - 1];
      if Handle(events, g, wakes[0]) == StillRunning {
        SupervisionVerdict(events, start, rest);
        if k :| 0 <= k < |rest| && Ends(events, g, rest, k, Supervision(events, start, rest)) {
          assert wakes[k + 1] == rest[k];
          assert Ends(events, g, wakes, k + 1, Supervision(events, start, rest));
        }
      } else {
        assert Ends(events, g, wakes, 0, Supervision(events, start, wakes));
      }
    }
  }

  /** Wake-up `k` is the first that is not tolerable, and `v` says why. */
  ghost predicate Ends(events: seq<Event>, generation: nat, wakes: seq<Wake>, k: nat, v: Watching)
    requires forall l :: 0 <= l < |wakes| && wakes[l].CellAt? ==> wakes[l].event <= |events|
  {
    && k < |wakes| && (forall l :: 0 <= l < k ==> Tolerable(events, generation, wakes[l]))
    && (v == TunnelDown <==> wakes[k].CellAt? && !Connected(events, wakes[k].event))
    && (v == Reconnected <==>
          wakes[k].CellAt? && Connected(events, wakes[k].event) && Generation(events, wakes[k].event) != generation)
    && (v == ChannelClosed <==> wakes[k] == CellClosed || wakes[k] == FeedClosed)
  }

  /**
    Still running after a cell value was handled means the tunnel never went down between reading the
    generation and that value, unless the counter was saturated to begin with.
   */
  lemma StillRunningMeansUnbroken(events: seq<Event>, start: nat, wakes: seq<Wake>, k: nat)
    requires Wakes(events, start, wakes) && k < |wakes| && wakes[k].CellAt?
    requires Supervision(events, start, wakes) == StillRunning
    ensures Connected(events, wakes[k].event) && Generation(events, wakes[k].event) == Generation(events, start)
    ensures Generation(events, start) < U64_MAX ==> forall i :: start <= i <= wakes[k].event ==> Connected(events, i)
  {
    hide At;
    SupervisionVerdict(events, start, wakes);
    assert Tolerable(events, Generation(events, start), wakes[k]);
    if Generation(events, start) < U64_MAX {
      SameGenerationMeansUnbroken(events, start, wakes[k].event);
    }
  }

  /**
    What the supervisor cannot see is a flap before it read its generation. With the supervisor still running,
    the session that became ready at `ready` is unbroken up to a handled value exactly when the generation had
    not moved between the two reads.
   */
  lemma UnbrokenSinceReadyIff(events: seq<Event>, ready: nat, start: nat, wakes: seq<Wake>, k: nat)
    requires ready <= start && Wakes(events, start, wakes) && k < |wakes| && wakes[k].CellAt?
    requires Supervision(events, start, wakes) == StillRunning && Generation(events, start) < U64_MAX
    ensures (forall i :: ready <= i <= wakes[k].event ==> Connected(events, i)) <==>
            Generation(events, ready) == Generation(events, start)
  {
    hide At;
    StillRunningMeansUnbroken(events, start, wakes, k);
    GenerationRevealsFlapsIff(events, ready, wakes[k].event);
  }

  lemma {:induction false} UnbrokenKeepsGeneration(events: seq<Event>, i: nat, j: nat)
    requires i <= j <= |events| && forall k :: i <= k <= j ==> Connected(events, k)
    ensures Generation(events, i) == Generation(events, j)
    decreases j - i
  {
    if i < j {
      UnbrokenKeepsGeneration(events, i, j - 1);
      CellMirrorsTracker(events, j - 1);
      CellMirrorsTracker(events, j);
      assert Connected(events, j - 1);
    }
  }

  function UpBlock(dev: string): seq<Event> {
    [UpDownLine(Up), UpDownLine(Env("dev", dev)), UpDownLine(EnvEnd)]
  }

  /** Up on tun0, ready; then down and up again on tun1 before the supervisor starts. */
  function EarlyFlap(): seq<Event> {
    UpBlock("tun0") + [State("CONNECTED"), State("RECONNECTING")] + UpBlock("tun1") + [State("CONNECTED")]
  }

  /** The session pinned tun0; the supervisor starts on tun1's generation, and goes on running. */
  lemma EarlyFlapGoesUnseen()
    ensures var e := EarlyFlap();
            && |e| == 9
            && Connected(e, 4) && At(e, 4).cell.identity == Some(TunnelIdentity("tun0", None, None, None))
            && Connected(e, 9) && At(e, 9).cell.identity == Some(TunnelIdentity("tun1", None, None, None))
            && !Connected(e, 5) && Generation(e, 4) == 1 && Generation(e, 9) == 2
            && Supervision(e, 9, [CellAt(9)]) == StillRunning
  {
    var e := EarlyFlap();
    assert Get([("dev", "tun0")], "dev") == Some("tun0") && Get([("dev", "tun1")], "dev") == Some("tun1");
    var a := At(e, 3);
    assert At(e, 2).tracker.updown == Collector(true, [("dev", "tun0")]);
    assert a.tracker.identity == Some(TunnelIdentity("tun0", None, None, None)) && !a.dead && !a.tracker.connected;
    assert At(e, 4).cell == TunnelState(true, a.tracker.identity, 1);
    assert At(e, 5).cell == TunnelState(false, None, 1) && !At(e, 5).dead;
    assert At(e, 7).tracker == Tracker(false, Collector(true, [("dev", "tun1")]), None);
    assert At(e, 8).tracker == Tracker(false, EMPTY_COLLECTOR, Some(TunnelIdentity("tun1", None, None, None)));
    assert At(e, 8).cell.generation == 1;
    SupervisionVerdict(e, 9, [CellAt(9)]);
  }

  // ----- identity freshness --------------------------------------------------------------------

  /** A line that ends whatever up-block was open. */
  predicate Breaks(e: Event) {
    e.UpDownLine? && (e.line.Up? || e.line.Down? || e.line.EnvEnd? || e.line.Other?)
  }

  /** An up-block begun at `u` is still open after `n` events. */
  ghost predicate Open(events: seq<Event>, u: nat, n: nat)
    requires n <= |events|
  {
    u < n && events[u] == UpDownLine(Up) && forall k :: u < k < n ==> !Breaks(events[k])
  }

  /** The environment entries among `events[a..b]`, in order. */
  function EnvBetween(events: seq<Event>, a: nat, b: nat): seq<(string, string)>
    requires a <= b <= |events|
    decreases b
  {
    if a == b then []
    else
      var e := events[b - 1];
      EnvBetween(events, a, b - 1) + if e.UpDownLine? && e.line.Env? then [(e.line.key, e.line.value)] else []
  }

  /** The up-block opened at `u` and closed by event `e`. */
  ghost predicate Block(events: seq<Event>, u: nat, e: nat) {
    e < |events| && events[e] == UpDownLine(EnvEnd) && Open(events, u, e)
  }

  /** Event `k` takes an identity away: a DOWN, or a transition out of CONNECTED. */
  ghost predicate Clears(events: seq<Event>, k: nat)
    requires k < |events|
  {
    || events[k] == UpDownLine(Down)
    || (At(events, k).tracker.connected &&
        (events[k].Fatal? || (events[k].State? && events[k].name != "CONNECTED")))
  }

  /** `id` is what the block `u`..`e` announced, and since then nothing cleared it and no other block closed. */
  ghost predicate Fresh(events: seq<Event>, n: nat, u: nat, e: nat, id: TunnelIdentity)
    requires n <= |events|
  {
    && e < n && Block(events, u, e)
    && Announces(EnvBetween(events, u + 1, e), id)
    && (forall k :: e < k < n ==> !Clears(events, k))
    && (forall v, f :: e < f < n ==> !Block(events, v, f))
  }

  lemma {:induction false} CollectorTracksOpenBlock(events: seq<Event>, n: nat)
    requires n <= |events| && !At(events, n).dead
    ensures var c := At(events, n).tracker.updown;
            && (c.inUpBlock <==> exists u: nat :: Open(events, u, n))
            && (forall u: nat :: Open(events, u, n) ==> c.env == EnvBetween(events, u + 1, n))
    decreases n
  {
    if n > 0 {
      var k := n - 1;
      CollectorTracksOpenBlock(events, k);
      var e := events[k];
      if e == UpDownLine(Up) {
        assert Open(events, k, n);
        assert forall u: nat :: Open(events, u, n) ==> u == k;
      } else if Breaks(e) {
        assert forall u: nat :: Open(events, u, n) ==> u < k;
      } else {
        assert forall u: nat :: Open(events, u, n) <==> Open(events, u, k);
      }
    }
  }

  /** What event `k` does to the identity, in terms of blocks and clearings. */
  lemma IdentityStep(events: seq<Event>, k: nat)
    requires k < |events| && !At(events, k + 1).dead
    ensures var before, after := At(events, k).tracker.identity, At(events, k + 1).tracker.identity;
            && (Clears(events, k) ==> after == None)
            && (forall u: nat :: Block(events, u, k) ==>
                  !Clears(events, k) && after.Some? && IdentityOf(EnvBetween(events, u + 1, k)) == after)
            && (!Clears(events, k) && (forall u: nat :: !Block(events, u, k)) ==> after == before)
  {
    CollectorTracksOpenBlock(events, k);
    assert At(events, k + 1) == Fold(At(events, k), events[k]);
    if events[k] == UpDownLine(EnvEnd) && At(events, k).tracker.updown.inUpBlock {
      var u: nat :| Open(events, u, k);
      assert Block(events, u, k);
    }
  }

  /**
    Identity freshness, both ways: the tracker reports an identity exactly when it is the one announced
    by the last completed up-block, with a non-empty `dev`, that closed after the last DOWN and after
    the last transition out of CONNECTED.
   */
  lemma {:induction false} IdentityIsFresh(events: seq<Event>, n: nat, id: TunnelIdentity)
    requires n <= |events| && !At(events, n).dead
    ensures At(events, n).tracker.identity == Some(id) <==> exists u: nat, e: nat :: Fresh(events, n, u, e, id)
    decreases n
  {
    if n > 0 {
      var k := n - 1;
      IdentityIsFresh(events, k, id);
      IdentityStep(events, k);
      hide At, Fold, Clears, Announces, IdentityOf, Fresh, Block;
      if u: nat :| Block(events, u, k) {
        AnnouncesIff(EnvBetween(events, u + 1, k), id);
        FreshestBlock(events, u, k, n, id);
      } else {
        forall u: nat, e: nat
          ensures Fresh(events, n, u, e, id) <==> Fresh(events, k, u, e, id) && !Clears(events, k)
        {
          FreshKept(events, k, u, e, id);
        }
      }
    }
  }

  /** A block that just closed is the only one that can be fresh. */
  lemma FreshestBlock(events: seq<Event>, u: nat, k: nat, n: nat, id: TunnelIdentity)
    requires Block(events, u, k) && n == k + 1
    ensures (exists v: nat, e: nat :: Fresh(events, n, v, e, id)) <==> Announces(EnvBetween(events, u + 1, k), id)
  {
    hide At, Clears, Announces;
    forall v: nat, e: nat | Fresh(events, n, v, e, id) ensures v == u && e == k {
      assert e < k ==> !Block(events, u, k);
    }
    if Announces(EnvBetween(events, u + 1, k), id) {
      assert Fresh(events, n, u, k, id);
    }
  }

  lemma FreshKept(events: seq<Event>, k: nat, u: nat, e: nat, id: TunnelIdentity)
    requires k < |events| && forall v: nat :: !Block(events, v, k)
    ensures Fresh(events, k + 1, u, e, id) <==> Fresh(events, k, u, e, id) && !Clears(events, k)
  {
    hide Clears, Announces, Block;
    assert forall v: nat, f: nat :: Block(events, v, f) ==> f != k;
  }

  /** An up-block that closes without a device is fatal, and what subscribers read is already "down". */
  lemma MissingDeviceFailsClosed(events: seq<Event>, u: nat, e: nat)
    requires Block(events, u, e) && !At(events, e).dead
    requires Says(EnvBetween(events, u + 1, e), "dev", None)
    ensures At(events, e + 1).dead && !Connected(events, e + 1) && At(events, e + 1).cell.identity == None
  {
    hide Says, Get;
    GetIsFirst(EnvBetween(events, u + 1, e), "dev", None);
    CollectorTracksOpenBlock(events, e);
  }

  /** And it stays that way. */
  lemma {:induction false} DeadStaysDown(events: seq<Event>, i: nat, j: nat)
    requires i <= j <= |events| && At(events, i).dead
    ensures At(events, j) == At(events, i)
    decreases j - i
  {
    if i < j {
      DeadStaysDown(events, i, j - 1);
    }
  }
}
