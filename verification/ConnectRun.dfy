/**
  One connect attempt, from the claimed session slot to the commit, with the teardown every failure runs, as a
  function of the runner, of everything outside the policy engine that may fail, and of what other tasks do to the
  session state at the two points where the attempt looks at it. The trace is what it did, in order.
 */
module ConnectRun {
  import opened Kernel
  import opened Plan
  import opened PlanSafety
  import opened PlanExact
  import opened PolicyManager
  import opened SessionCell

  // ----- the attempt ---------------------------------------------------------------------------

  /** Which of the steps outside the policy engine succeed. */
  datatype Fates = Fates(starts: bool, authenticates: bool, hasAddress: bool, publishes: bool)

  /** `InstallFailed` says whether the install undid itself, `PolicyTorn` whether the teardown went through. */
  datatype Action =
    | Installed
    | InstallFailed(undone: bool)
    | Published
    | PublishFailed
    | Revoked
    | PolicyTorn(ok: bool)
    | Committed

  /** An action, and what was true just after it. */
  datatype Moment = Moment(action: Action, world: World, published: bool)

  /** What the attempt holds: `bound` is a policy it must tear down, `published` an identity the proxy may use. */
  datatype Held = Held(world: World, bound: bool, published: bool, trace: seq<Moment>)

  function Empty(found: World): Held { Held(found, false, false, []) }

  function Note(h: Held, action: Action): Held { h.(trace := h.trace + [Moment(action, h.world, h.published)]) }

  /** Whether an outcome of the install leaves nothing to undo. */
  predicate Undone(r: Outcome) { r.Ok? || !r.error.RollbackFailed? }

  /** The one teardown path: revoke first and unconditionally, then remove the policy if there is one. */
  function TearDown(o: Oracle, spec: TunnelSpec, h: Held): Held {
    var h1 := Note(h.(published := false), Revoked);
    if !h.bound then h1
    else
      var (r, w) := Teardown(o, h1.world, spec, LinuxPlan(spec), |LinuxPlan(spec)|);
      Note(h1.(world := w, bound := false), PolicyTorn(r.Ok?))
  }

  /** Installs and verifies, then, and only then, publishes. */
  function InstallPolicy(o: Oracle, spec: TunnelSpec, publishes: bool, h: Held): Held {
    var (r, w) := ManagedInstall(o, h.world, spec);
    if r.Err? then Note(h.(world := w), InstallFailed(Undone(r)))
    else
      var h1 := Note(h.(world := w, bound := true), Installed);
      if publishes then Note(h1.(published := true), Published) else Note(h1, PublishFailed)
  }

  function BringUp(o: Oracle, spec: TunnelSpec, fates: Fates, announced: bool, h: Held): Held {
    if announced && fates.authenticates && fates.hasAddress then InstallPolicy(o, spec, fates.publishes, h) else h
  }

  function Establish(o: Oracle, spec: TunnelSpec, fates: Fates, announced: bool, h: Held): Held {
    if !fates.starts then h
    else
      var h1 := BringUp(o, spec, fates, announced, h);
      if h1.published then h1 else TearDown(o, spec, h1)
  }

  /** What the cell is after other tasks did `early` and the attempt announced authentication, and whether it could. */
  function Announce(fates: Fates, cell: SessionState, early: seq<CellOp>): (bool, SessionState) {
    if !fates.starts then (false, cell)
    else
      var c := ApplyAll(cell, early);
      (Accepts(c, Advance(Authenticating)), Apply(c, Advance(Authenticating)))
  }

  datatype Attempted = Attempted(up: bool, cell: SessionState, held: Held)

  /** The attempt after the slot was claimed, to its commit; `late` is what other tasks do before that. */
  function RunConnect(
    o: Oracle, spec: TunnelSpec, fates: Fates, cell: SessionState, early: seq<CellOp>, late: seq<CellOp>, found: World)
    : Attempted
  {
    var (announced, c1) := Announce(fates, cell, early);
    var h := Establish(o, spec, fates, announced, Empty(found));
    if !h.published then Attempted(false, c1, h)
    else
      var c2 := ApplyAll(c1, late);
      if Accepts(c2, Advance(Connected)) then Attempted(true, Apply(c2, Advance(Connected)), Note(h, Committed))
      else Attempted(false, c2, TearDown(o, spec, h))
  }

  // ----- when it comes up ----------------------------------------------------------------------

  /**
    An attempt comes up exactly when nothing outside fails, the manager's install succeeds, and both moves of the
    session state are accepted; it is then published, bound and `Connected`, and otherwise neither bound nor published.
   */
  lemma ComesUpIff(
    o: Oracle, spec: TunnelSpec, fates: Fates, cell: SessionState, early: seq<CellOp>, late: seq<CellOp>, found: World)
    ensures var a := RunConnect(o, spec, fates, cell, early, late, found);
            && (a.up <==>
                  && fates == Fates(true, true, true, true)
                  && ManagedInstall(o, found, spec).0.Ok?
                  && Accepts(ApplyAll(cell, early), Advance(Authenticating))
                  && Accepts(ApplyAll(cell, early + [Advance(Authenticating)] + late), Advance(Connected)))
            && (a.up ==> a.cell == Connected)
            && a.held.bound == a.up && a.held.published == a.up
  {
    hide Teardown, ManagedInstall, Accepts, ApplyAll;
    ApplyAllSnoc(cell, early, Advance(Authenticating));
    ApplyAllConcat(cell, early + [Advance(Authenticating)], late);
  }

  /** A disconnect that had the last word stops the commit. */
  lemma DisconnectStopsTheAttempt(
    o: Oracle, spec: TunnelSpec, fates: Fates, cell: SessionState, early: seq<CellOp>, late: seq<CellOp>, found: World,
    i: nat)
    requires LastWordIsDisconnect(cell, early + [Advance(Authenticating)] + late, i)
    ensures !RunConnect(o, spec, fates, cell, early, late, found).up
  {
    hide RunConnect, LastWordIsDisconnect;
    DisconnectWins(cell, early + [Advance(Authenticating)] + late, i);
    ComesUpIff(o, spec, fates, cell, early, late, found);
  }

  function Actions(trace: seq<Moment>): seq<Action> { seq(|trace|, i requires 0 <= i < |trace| => trace[i].action) }

  /** Everything an attempt can have done, and nothing else. */
  predicate IsHistory(actions: seq<Action>, up: bool) {
    if up then actions == [Installed, Published, Committed]
    else
      || actions == []
      || actions == [Revoked]
      || (|actions| == 2 && actions[0].InstallFailed? && actions[1] == Revoked)
      || (|actions| == 4 && actions[..3] == [Installed, PublishFailed, Revoked] && actions[3].PolicyTorn?)
      || (|actions| == 4 && actions[..3] == [Installed, Published, Revoked] && actions[3].PolicyTorn?)
  }

  lemma EveryHistory(
    o: Oracle, spec: TunnelSpec, fates: Fates, cell: SessionState, early: seq<CellOp>, late: seq<CellOp>, found: World)
    ensures var a := RunConnect(o, spec, fates, cell, early, late, found);
            IsHistory(Actions(a.held.trace), a.up)
  {
    hide Teardown, ManagedInstall, Accepts, Apply, ApplyAll;
  }

  // ----- the trace tells the truth -------------------------------------------------------------

  /** The world an action of the trace started from. */
  function Before(found: World, trace: seq<Moment>, i: nat): World
    requires i < |trace|
  {
    if i == 0 then found else trace[i - 1].world
  }

  /**
    Every entry is what its name says: an install is the manager's, a teardown the engine's over the whole plan, each
    on the world left by the entry before it and reporting that run's own outcome; nothing else touches the machine.
   */
  ghost predicate Truthful(o: Oracle, spec: TunnelSpec, found: World, trace: seq<Moment>) {
    forall i :: 0 <= i < |trace| ==>
      var m, before := trace[i], Before(found, trace, i);
      match m.action
      case Installed => (Ok, m.world) == ManagedInstall(o, before, spec)
      case InstallFailed(undone) =>
        var (r, w) := ManagedInstall(o, before, spec);
        m.world == w && r.Err? && undone == Undone(r)
      case PolicyTorn(ok) =>
        var (r, w) := Teardown(o, before, spec, LinuxPlan(spec), |LinuxPlan(spec)|);
        m.world == w && ok == r.Ok?
      case _ => m.world == before
  }

  /** The attempt never lies about what it did, and its world is the one its last action left. */
  lemma TraceIsTruthful(
    o: Oracle, spec: TunnelSpec, fates: Fates, cell: SessionState, early: seq<CellOp>, late: seq<CellOp>, found: World)
    ensures var h := RunConnect(o, spec, fates, cell, early, late, found).held;
            && Truthful(o, spec, found, h.trace)
            && h.world == if h.trace == [] then found else h.trace[|h.trace| - 1].world
  {
    hide Teardown, ManagedInstall, Accepts, Apply, ApplyAll;
  }

  // ----- the trace is in order -----------------------------------------------------------------

  /** While an identity is published, every policy step stands. */
  ghost predicate PublishedIsBacked(spec: TunnelSpec, trace: seq<Moment>) {
    forall i :: 0 <= i < |trace| && trace[i].published ==>
      PresentTo(spec, LinuxPlan(spec), trace[i].world.machine, |LinuxPlan(spec)|)
  }

  ghost predicate PublishAfterInstall(trace: seq<Moment>) {
    forall i :: 0 <= i < |trace| && trace[i].action == Published ==>
      exists j :: 0 <= j < i && trace[j].action == Installed
  }

  /** At every policy teardown the identity is already revoked, and stays so. */
  ghost predicate RevokeBeforeTeardown(trace: seq<Moment>) {
    forall i :: 0 <= i < |trace| && trace[i].action.PolicyTorn? ==>
      exists j :: 0 <= j < i && trace[j].action == Revoked && forall k :: j <= k <= i ==> !trace[k].published
  }

  function CountInstalled(trace: seq<Moment>): nat {
    if trace == [] then 0
    else CountInstalled(trace[..|trace| - 1]) + if trace[|trace| - 1].action == Installed then 1 else 0
  }

  function CountTorn(trace: seq<Moment>): nat {
    if trace == [] then 0
    else CountTorn(trace[..|trace| - 1]) + if trace[|trace| - 1].action.PolicyTorn? then 1 else 0
  }

  /** At every point, each install so far has had its one teardown, except at most the last. */
  ghost predicate Alternating(trace: seq<Moment>)
    decreases |trace|
  {
    && CountTorn(trace) <= CountInstalled(trace) <= CountTorn(trace) + 1
    && (trace != [] ==> Alternating(trace[..|trace| - 1]))
  }

  /** That is: of every prefix. */
  lemma {:induction false} AlternatingAt(trace: seq<Moment>, k: nat)
    requires Alternating(trace) && k <= |trace|
    ensures CountTorn(trace[..k]) <= CountInstalled(trace[..k]) <= CountTorn(trace[..k]) + 1
    decreases |trace|
  {
    if k == |trace| {
      assert trace[..k] == trace;
    } else {
      AlternatingAt(trace[..|trace| - 1], k);
      assert trace[..|trace| - 1][..k] == trace[..k];
    }
  }

  /** `standing`: there is an install whose teardown has not been attempted yet. */
  ghost predicate Orderly(spec: TunnelSpec, trace: seq<Moment>, standing: bool) {
    && PublishedIsBacked(spec, trace) && PublishAfterInstall(trace) && RevokeBeforeTeardown(trace) && Alternating(trace)
    && CountInstalled(trace) == CountTorn(trace) + if standing then 1 else 0
  }

  /** What a next action must satisfy for the trace to stay orderly. */
  ghost predicate InOrder(spec: TunnelSpec, trace: seq<Moment>, standing: bool, m: Moment) {
    && (m.published ==> PresentTo(spec, LinuxPlan(spec), m.world.machine, |LinuxPlan(spec)|))
    && (m.action == Installed ==> !standing)
    && (m.action == Published ==> exists j :: 0 <= j < |trace| && trace[j].action == Installed)
    && (m.action.PolicyTorn? ==>
          && standing && !m.published
          && trace != [] && trace[|trace| - 1].action == Revoked && !trace[|trace| - 1].published)
  }

  lemma AlternatingSnoc(trace: seq<Moment>, standing: bool, m: Moment)
    requires Alternating(trace) && CountInstalled(trace) == CountTorn(trace) + if standing then 1 else 0
    requires (m.action == Installed ==> !standing) && (m.action.PolicyTorn? ==> standing)
    ensures var t, now := trace + [m], m.action == Installed || (standing && !m.action.PolicyTorn?);
            Alternating(t) && CountInstalled(t) == CountTorn(t) + if now then 1 else 0
  {
    var t := trace + [m];
    assert t[..|trace|] == trace;
  }

  lemma OrderlySnoc(spec: TunnelSpec, trace: seq<Moment>, standing: bool, m: Moment)
    requires Orderly(spec, trace, standing) && InOrder(spec, trace, standing, m)
    ensures Orderly(spec, trace + [m], m.action == Installed || (standing && !m.action.PolicyTorn?))
  {
    hide PresentTo;
    var t := trace + [m];
    AlternatingSnoc(trace, standing, m);
    hide Alternating, CountInstalled, CountTorn;
    forall i | 0 <= i < |t| && t[i].action == Published ensures exists j :: 0 <= j < i && t[j].action == Installed {
      var j :| 0 <= j < i && j < |trace| && trace[j].action == Installed;
      assert t[j].action == Installed;
    }
    forall i | 0 <= i < |t| && t[i].action.PolicyTorn?
      ensures exists j :: 0 <= j < i && t[j].action == Revoked && forall k :: j <= k <= i ==> !t[k].published
    {
      if i < |trace| {
        assert trace[i].action.PolicyTorn?;
        var j :| 0 <= j < i && trace[j].action == Revoked && forall k :: j <= k <= i ==> !trace[k].published;
        assert t[j].action == Revoked;
      } else {
        assert t[|trace| - 1].action == Revoked;
      }
    }
  }

  /** What the attempt holds is in order: an identity is out only over a whole policy it is bound to. */
  ghost predicate InHand(spec: TunnelSpec, h: Held) {
    && Orderly(spec, h.trace, h.bound)
    && (h.published ==> h.bound && PresentTo(spec, LinuxPlan(spec), h.world.machine, |LinuxPlan(spec)|))
  }

  lemma TearDownInHand(o: Oracle, spec: TunnelSpec, h: Held)
    requires InHand(spec, h)
    ensures InHand(spec, TearDown(o, spec, h)) && !TearDown(o, spec, h).bound && !TearDown(o, spec, h).published
  {
    hide Orderly, Teardown, PresentTo;
    var h1 := Note(h.(published := false), Revoked);
    OrderlySnoc(spec, h.trace, h.bound, Moment(Revoked, h.world, false));
    if h.bound {
      var (r, w) := Teardown(o, h1.world, spec, LinuxPlan(spec), |LinuxPlan(spec)|);
      OrderlySnoc(spec, h1.trace, true, Moment(PolicyTorn(r.Ok?), w, false));
    }
  }

  lemma InstallPolicyInHand(o: Oracle, spec: TunnelSpec, publishes: bool, h: Held)
    requires InHand(spec, h) && !h.bound && !h.published
    ensures InHand(spec, InstallPolicy(o, spec, publishes, h))
  {
    hide Orderly, ManagedInstall, PresentTo;
    var (r, w) := ManagedInstall(o, h.world, spec);
    ManagedOkStands(o, h.world, spec);
    if r.Err? {
      OrderlySnoc(spec, h.trace, false, Moment(InstallFailed(Undone(r)), w, false));
    } else {
      var h1 := Note(h.(world := w, bound := true), Installed);
      OrderlySnoc(spec, h.trace, false, Moment(Installed, w, false));
      assert h1.trace[|h.trace|].action == Installed;
      OrderlySnoc(spec, h1.trace, true, Moment(PublishFailed, w, false));
      OrderlySnoc(spec, h1.trace, true, Moment(Published, w, true));
    }
  }

  /**
    Wherever an attempt fails: publish only after an install, revoke before the teardown, and every install followed
    by exactly one teardown, before any other install, unless the attempt came up.
   */
  lemma AttemptIsOrderly(
    o: Oracle, spec: TunnelSpec, fates: Fates, cell: SessionState, early: seq<CellOp>, late: seq<CellOp>, found: World)
    ensures var a := RunConnect(o, spec, fates, cell, early, late, found);
            && InHand(spec, a.held) && Orderly(spec, a.held.trace, a.up)
            && forall k :: 0 <= k <= |a.held.trace| ==>
                 var t := a.held.trace[..k]; CountTorn(t) <= CountInstalled(t) <= CountTorn(t) + 1
  {
    hide InHand, TearDown, Establish, Accepts, Apply, ApplyAll, Orderly;
    var (announced, _) := Announce(fates, cell, early);
    var h := Establish(o, spec, fates, announced, Empty(found));
    EstablishInHand(o, spec, fates, announced, found);
    TearDownInHand(o, spec, h);
    CommitInHand(spec, h);
    ComesUpIff(o, spec, fates, cell, early, late, found);
    var trace := RunConnect(o, spec, fates, cell, early, late, found).held.trace;
    InHandIsOrderly(spec, RunConnect(o, spec, fates, cell, early, late, found).held);
    forall k | 0 <= k <= |trace| ensures var t := trace[..k]; CountTorn(t) <= CountInstalled(t) <= CountTorn(t) + 1 {
      AlternatingAt(trace, k);
    }
  }

  lemma EstablishInHand(o: Oracle, spec: TunnelSpec, fates: Fates, announced: bool, found: World)
    ensures InHand(spec, Establish(o, spec, fates, announced, Empty(found)))
  {
    assert InHand(spec, Empty(found));
    hide InHand, InstallPolicy, TearDown;
    InstallPolicyInHand(o, spec, fates.publishes, Empty(found));
    TearDownInHand(o, spec, BringUp(o, spec, fates, announced, Empty(found)));
  }

  lemma CommitInHand(spec: TunnelSpec, h: Held)
    requires InHand(spec, h)
    ensures InHand(spec, Note(h, Committed))
  {
    hide Orderly, PresentTo;
    OrderlySnoc(spec, h.trace, h.bound, Moment(Committed, h.world, h.published));
  }

  lemma InHandIsOrderly(spec: TunnelSpec, h: Held)
    requires InHand(spec, h)
    ensures Orderly(spec, h.trace, h.bound) && Alternating(h.trace)
  {
  }

  // ----- the machine over a whole attempt ------------------------------------------------------

  /** Every install that failed undid itself, and every teardown went through. */
  ghost predicate Recovered(trace: seq<Moment>) {
    forall i :: 0 <= i < |trace| ==> trace[i].action != InstallFailed(false) && trace[i].action != PolicyTorn(false)
  }

  /**
    The machine the attempt found and the machine now. From a clean start it was protected after every command;
    with nothing of ours installed it is clean again. From an unstained start it is the very machine found, plus
    exactly the plan while that is installed.
   */
  ghost predicate Account(spec: TunnelSpec, found: World, now: World, installed: bool, recovered: bool) {
    && (Clean(spec, found.machine) ==>
          && found.log <= now.log && ProtectedSince(spec, now, |found.log|)
          && (installed ==>
                TidyFor(spec, now.machine) && PresentTo(spec, LinuxPlan(spec), now.machine, |LinuxPlan(spec)|))
          && (!installed && recovered ==> Clean(spec, now.machine)))
    && (Unstained(spec, found.machine) ==>
          && (installed ==> now.machine == Built(spec, found.machine, LinuxPlan(spec)))
          && (!installed && recovered ==> now.machine == found.machine))
  }

  lemma AccountStarts(spec: TunnelSpec, w: World)
    ensures Account(spec, w, w, false, true)
  {
  }

  lemma AccountInstall(spec: TunnelSpec, o: Oracle, found: World)
    ensures var (r, w') := ManagedInstall(o, found, spec);
            Account(spec, found, w', r.Ok?, Undone(r))
  {
    hide ManagedInstall, Clean, Unstained, Built, PresentTo, TidyFor, ProtectedSince;
    var (r, w') := ManagedInstall(o, found, spec);
    if Clean(spec, found.machine) {
      ManagedInstallFromClean(o, found, spec);
      ManagedInstallKeepsTidy(o, found, spec);
      assert found.log <= w'.log && ProtectedSince(spec, w', |found.log|);
      assert r.Ok? ==> TidyFor(spec, w'.machine) && PresentTo(spec, LinuxPlan(spec), w'.machine, |LinuxPlan(spec)|);
      assert !r.Ok? && Undone(r) ==> Clean(spec, w'.machine);
    }
    if Unstained(spec, found.machine) {
      ManagedInstallRestores(o, found, spec);
    }
  }

  lemma PresentIsClosed(spec: TunnelSpec, m: Machine)
    requires PresentTo(spec, LinuxPlan(spec), m, |LinuxPlan(spec)|)
    ensures DownClosed(spec, LinuxPlan(spec), m)
  {
    hide LinuxPlan, Present;
  }

  lemma ProtectedChain(spec: TunnelSpec, w: World, w': World, base: nat)
    requires base <= |w.log| && w.log <= w'.log
    requires ProtectedSince(spec, w, base) && ProtectedSince(spec, w', |w.log|)
    ensures ProtectedSince(spec, w', base)
  {
    hide Protected;
  }

  lemma AccountTeardown(spec: TunnelSpec, o: Oracle, found: World, now: World, recovered: bool)
    requires Account(spec, found, now, true, recovered)
    ensures var plan := LinuxPlan(spec); var (r, w') := Teardown(o, now, spec, plan, |plan|);
            Account(spec, found, w', false, r.Ok?)
  {
    hide Teardown, Clean, Unstained, Built, PresentTo, DownClosed, ProtectedSince, TidyFor;
    var plan := LinuxPlan(spec);
    var w' := Teardown(o, now, spec, plan, |plan|).1;
    LinuxPlanOrdered(spec);
    if Clean(spec, found.machine) {
      PresentIsClosed(spec, now.machine);
      TeardownFailClosed(o, now, spec);
      TeardownTidy(o, now, spec, plan, |plan|);
      ProtectedChain(spec, now, w', |found.log|);
    }
    if Unstained(spec, found.machine) {
      UnstainedIsAbsent(spec, found.machine);
      assert plan[..|plan|] == plan;
      TeardownRestores(o, now, spec, plan, |plan|, found.machine);
    }
  }


  lemma RecoveredSnoc(trace: seq<Moment>, m: Moment)
    ensures Recovered(trace + [m]) <==>
            Recovered(trace) && m.action != InstallFailed(false) && m.action != PolicyTorn(false)
  {
    var t := trace + [m];
    assert t[|trace|] == m && forall i :: 0 <= i < |trace| ==> t[i] == trace[i];
  }

  lemma AccountWeakens(spec: TunnelSpec, found: World, now: World, installed: bool, recovered: bool, less: bool)
    requires Account(spec, found, now, installed, recovered) && (less ==> recovered)
    ensures Account(spec, found, now, installed, less)
  {
  }

  ghost predicate Accounted(spec: TunnelSpec, found: World, h: Held) {
    Account(spec, found, h.world, h.bound, Recovered(h.trace))
  }

  lemma TearDownAccounted(o: Oracle, spec: TunnelSpec, found: World, h: Held)
    requires Accounted(spec, found, h)
    ensures Accounted(spec, found, TearDown(o, spec, h))
  {
    hide Account, Teardown, Recovered;
    var h1 := Note(h.(published := false), Revoked);
    RecoveredSnoc(h.trace, Moment(Revoked, h.world, false));
    if h.bound {
      var (r, w) := Teardown(o, h1.world, spec, LinuxPlan(spec), |LinuxPlan(spec)|);
      AccountTeardown(spec, o, found, h.world, Recovered(h.trace));
      RecoveredSnoc(h1.trace, Moment(PolicyTorn(r.Ok?), w, false));
      AccountWeakens(spec, found, w, false, r.Ok?, Recovered(TearDown(o, spec, h).trace));
    }
  }

  lemma InstallPolicyAccounted(o: Oracle, spec: TunnelSpec, publishes: bool, found: World)
    ensures Accounted(spec, found, InstallPolicy(o, spec, publishes, Empty(found)))
  {
    var h := Empty(found);
    assert Recovered(h.trace);
    hide Account, ManagedInstall, Recovered;
    var (r, w) := ManagedInstall(o, found, spec);
    AccountInstall(spec, o, found);
    if r.Err? {
      RecoveredSnoc(h.trace, Moment(InstallFailed(Undone(r)), w, false));
    } else {
      var h1 := Note(h.(world := w, bound := true), Installed);
      RecoveredSnoc(h.trace, Moment(Installed, w, false));
      RecoveredSnoc(h1.trace, Moment(PublishFailed, w, false));
      RecoveredSnoc(h1.trace, Moment(Published, w, true));
    }
  }

  lemma EstablishAccounted(o: Oracle, spec: TunnelSpec, fates: Fates, announced: bool, found: World)
    ensures Accounted(spec, found, Establish(o, spec, fates, announced, Empty(found)))
  {
    AccountStarts(spec, found);
    assert Recovered(Empty(found).trace);
    hide Account, InstallPolicy, TearDown, Recovered;
    InstallPolicyAccounted(o, spec, fates.publishes, found);
    TearDownAccounted(o, spec, found, BringUp(o, spec, fates, announced, Empty(found)));
  }

  /**
    From a clean machine an attempt keeps it protected after every command, and clean again unless it came up or a
    rollback or teardown failed; an unstained machine is then left exactly as it was found.
   */
  lemma AttemptLeavesMachineAsFound(
    o: Oracle, spec: TunnelSpec, fates: Fates, cell: SessionState, early: seq<CellOp>, late: seq<CellOp>, found: World)
    ensures var a := RunConnect(o, spec, fates, cell, early, late, found);
            && (Clean(spec, found.machine) ==> ProtectedSince(spec, a.held.world, |found.log|))
            && (!a.up && Recovered(a.held.trace) ==>
                  && (Clean(spec, found.machine) ==> Clean(spec, a.held.world.machine))
                  && (Unstained(spec, found.machine) ==> a.held.world.machine == found.machine))
  {
    hide Account, TearDown, Establish, Accepts, Apply, ApplyAll, Recovered, Clean, Unstained, ProtectedSince;
    var (announced, _) := Announce(fates, cell, early);
    var h := Establish(o, spec, fates, announced, Empty(found));
    EstablishAccounted(o, spec, fates, announced, found);
    TearDownAccounted(o, spec, found, h);
    RecoveredSnoc(h.trace, Moment(Committed, h.world, h.published));
    ComesUpIff(o, spec, fates, cell, early, late, found);
    AccountMeans(spec, found, RunConnect(o, spec, fates, cell, early, late, found).held);
  }

  lemma AccountMeans(spec: TunnelSpec, found: World, h: Held)
    requires Accounted(spec, found, h)
    ensures Clean(spec, found.machine) ==> ProtectedSince(spec, h.world, |found.log|)
    ensures !h.bound && Recovered(h.trace) ==>
              && (Clean(spec, found.machine) ==> Clean(spec, h.world.machine))
              && (Unstained(spec, found.machine) ==> h.world.machine == found.machine)
  {
  }
}
