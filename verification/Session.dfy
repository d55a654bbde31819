/** One connect attempt as it runs: the state cell, the policy engine and what the attempt holds, step by step. */
module Session {
  import opened Kernel
  import opened Plan
  import opened PlanSafety
  import opened PlanExact
  import opened PolicyRunner
  import opened SessionCell
  import Run = ConnectRun
  import Reconcile
  import Manager = PolicyManager

  /** The resources of one attempt, and the collaborators it drives. */
  class Attempt {
    const spec: TunnelSpec
    const cell: StateCell
    const engine: Engine
    var bound: bool
    var published: bool
    var trace: seq<Run.Moment>

    constructor (spec: TunnelSpec, cell: StateCell, engine: Engine)
      ensures this.spec == spec && this.cell == cell && this.engine == engine
      ensures View() == Run.Empty(engine.Snapshot())
    {
      this.spec, this.cell, this.engine := spec, cell, engine;
      bound, published, trace := false, false, [];
    }

    function View(): Run.Held
      reads this, engine
    {
      Run.Held(engine.Snapshot(), bound, published, trace)
    }

    method Note(action: Run.Action)
      modifies this`trace
      ensures View() == Run.Note(old(View()), action)
    {
      trace := trace + [Run.Moment(action, engine.Snapshot(), published)];
    }

    /** The policy manager's install: best-effort removal of leftovers, then the verified plan. */
    method Install() returns (r: Outcome)
      modifies engine
      ensures (r, engine.Snapshot()) == Manager.ManagedInstall(engine.oracle, old(engine.Snapshot()), spec)
    {
      hide Plan.Install, Reconcile.BestEffort;
      LinuxPlanOrdered(spec);
      r := engine.RunBestEffort(Manager.PreInstallCleanup(spec));
      if r.Ok? {
        r := engine.InstallPlan(spec, LinuxPlan(spec));
      }
    }

    /** Revoke first and unconditionally, then remove the policy if there is one. */
    method Teardown()
      modifies this, engine
      ensures View() == Run.TearDown(engine.oracle, spec, old(View())) && !bound && !published
    {
      hide Plan.Teardown, TidyFor, DownClosed, ProtectedSince;
      published := false;
      Note(Run.Revoked);
      if bound {
        LinuxPlanOrdered(spec);
        var r := engine.TeardownPlan(spec, LinuxPlan(spec), |LinuxPlan(spec)|);
        bound := false;
        Note(Run.PolicyTorn(r.Ok?));
      }
    }

    /** The binding is kept before anything else may fail, and published only after it. */
    method InstallPolicy(publishes: bool)
      modifies this, engine
      ensures View() == Run.InstallPolicy(engine.oracle, spec, publishes, old(View()))
    {
      hide Manager.ManagedInstall;
      var r := Install();
      if r.Err? {
        Note(Run.InstallFailed(Run.Undone(r)));
        return;
      }
      bound := true;
      Note(Run.Installed);
      if !publishes {
        Note(Run.PublishFailed);
        return;
      }
      published := true;
      Note(Run.Published);
    }

    /** `establish`: everything up to a published tunnel. On failure the teardown has already run. */
    method Establish(fates: Run.Fates, early: seq<CellOp>) returns (ok: bool)
      requires !published
      modifies this, cell, engine
      ensures var (announced, c) := Run.Announce(fates, old(cell.current), early);
              && cell.current == c
              && View() == Run.Establish(engine.oracle, spec, fates, announced, old(View()))
      ensures ok == published
    {
      hide Run.InstallPolicy, Run.TearDown, Apply, ApplyAll, Accepts;
      if !fates.starts {
        return false;
      }
      cell.DoAll(early);
      var announced := cell.Do(Advance(Authenticating));
      if announced && fates.authenticates && fates.hasAddress {
        InstallPolicy(fates.publishes);
      }
      ok := published;
      if !ok {
        Teardown();
      }
    }

    /**
      The attempt after the slot was claimed, to its commit: exactly the specified one, so its trace is in order and
      tells the truth, it comes up exactly when it should, and it leaves the machine as it found it.
     */
    method RunConnect(fates: Run.Fates, early: seq<CellOp>, late: seq<CellOp>) returns (up: bool)
      requires View() == Run.Empty(engine.Snapshot())
      modifies this, cell, engine
      ensures Run.Attempted(up, cell.current, View()) ==
              Run.RunConnect(engine.oracle, spec, fates, old(cell.current), early, late, old(engine.Snapshot()))
      ensures up <==>
                && fates == Run.Fates(true, true, true, true)
                && Manager.ManagedInstall(engine.oracle, old(engine.Snapshot()), spec).0.Ok?
                && Accepts(ApplyAll(old(cell.current), early), Advance(Authenticating))
                && Accepts(ApplyAll(old(cell.current), early + [Advance(Authenticating)] + late), Advance(Connected))
      ensures up ==> cell.current == Connected
      ensures bound == up && published == up
      ensures Run.Truthful(engine.oracle, spec, old(engine.Snapshot()), trace) && Run.Orderly(spec, trace, up)
      ensures forall i: nat ::
                LastWordIsDisconnect(old(cell.current), early + [Advance(Authenticating)] + late, i) ==> !up
      ensures old(Clean(spec, engine.machine)) ==> ProtectedSince(spec, engine.Snapshot(), |old(engine.log)|)
      ensures !up && Run.Recovered(trace) && old(Clean(spec, engine.machine)) ==> Clean(spec, engine.machine)
      ensures !up && Run.Recovered(trace) && old(Unstained(spec, engine.machine)) ==>
                engine.machine == old(engine.machine)
    {
      ghost var o, begin, found := engine.oracle, cell.current, engine.Snapshot();
      up := Connect(fates, early, late);
      Run.ComesUpIff(o, spec, fates, begin, early, late, found);
      Run.TraceIsTruthful(o, spec, fates, begin, early, late, found);
      Run.AttemptIsOrderly(o, spec, fates, begin, early, late, found);
      Run.AttemptLeavesMachineAsFound(o, spec, fates, begin, early, late, found);
      hide *;
      forall i: nat | LastWordIsDisconnect(begin, early + [Advance(Authenticating)] + late, i) ensures !up {
        Run.DisconnectStopsTheAttempt(o, spec, fates, begin, early, late, found, i);
      }
    }

    /** `run_connect` itself. */
    method Connect(fates: Run.Fates, early: seq<CellOp>, late: seq<CellOp>) returns (up: bool)
      requires View() == Run.Empty(engine.Snapshot())
      modifies this, cell, engine
      ensures Run.Attempted(up, cell.current, View()) ==
              Run.RunConnect(engine.oracle, spec, fates, old(cell.current), early, late, old(engine.Snapshot()))
    {
      hide Run.Establish, Run.TearDown, Apply, ApplyAll, Accepts;
      up := Establish(fates, early);
      if !up {
        return;
      }
      cell.DoAll(late);
      var committed := cell.Do(Advance(Connected));
      if !committed {
        Teardown();
        return false;
      }
      Note(Run.Committed);
    }
  }
}
