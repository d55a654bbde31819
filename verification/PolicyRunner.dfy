/**
  The policy engine as it runs: loops that issue commands against a machine they change, each proved
  to do what its specification function says and to keep what that function was proved to keep.
 */
module PolicyRunner {
  import opened Kernel
  import opened Plan
  import opened PlanSafety
  import opened PlanReturns
  import Recovery = Reassertion
  import Reconcile

  class Engine {
    const oracle: Oracle
    var machine: Machine
    var log: seq<Entry>

    constructor (oracle: Oracle, machine: Machine)
      ensures this.oracle == oracle && Snapshot() == World(machine, [])
    {
      this.oracle := oracle;
      this.machine := machine;
      this.log := [];
    }

    function Snapshot(): World
      reads this
    {
      World(machine, log)
    }

    method Issue(c: Command) returns (r: Report)
      modifies this
      ensures (r, Snapshot()) == Plan.Run(oracle, old(Snapshot()), c)
    {
      var answer := oracle(|log|);
      if answer.effect && !IsProbe(c) {
        machine := Effect(machine, c);
      }
      log := log + [Entry(c, machine)];
      r := if IsProbe(c) then ProbeReport(machine, c, answer.probe) else answer.report;
    }

    method Check(spec: TunnelSpec, s: Step, want: bool) returns (r: Outcome)
      modifies this
      ensures (r, Snapshot()) == Evaluate(oracle, old(Snapshot()), spec, s, want)
    {
      var report := Issue(ProbeOf(s));
      if report.SpawnError? {
        return Err(Spawn);
      }
      if !report.ExitZero? || Present(spec, machine, s) != want {
        return Err(Verification);
      }
      return Ok;
    }

    method ApplyStep(spec: TunnelSpec, s: Step) returns (r: Outcome)
      modifies this
      ensures (r, Snapshot()) == Plan.InstallStep(oracle, old(Snapshot()), spec, s)
    {
      var report := Issue(ApplyCommand(spec, s));
      if report.SpawnError? {
        return Err(Spawn);
      }
      if !report.ExitZero? {
        return Err(CommandFailed("install"));
      }
      r := Check(spec, s, true);
    }

    /** Removes every step in reverse, aborting on the first removal that does not read back. */
    method TeardownPlan(spec: TunnelSpec, plan: seq<Step>, count: nat) returns (r: Outcome)
      requires Ordered(plan) && count <= |plan|
      modifies this
      ensures (r, Snapshot()) == Plan.Teardown(oracle, old(Snapshot()), spec, plan, count)
      ensures r.Ok? ==> forall j :: 0 <= j < count ==> !Present(spec, machine, plan[j])
      ensures plan == LinuxPlan(spec) && count == |plan| && old(TidyFor(spec, machine)
          && DownClosed(spec, plan, machine)) ==>
                ProtectedSince(spec, Snapshot(), |old(log)|)
    {
      ghost var goal := Plan.Teardown(oracle, Snapshot(), spec, plan, count);
      TeardownFromAnywhere(oracle, Snapshot(), spec, plan, count);
      if plan == LinuxPlan(spec) && count == |plan| && TidyFor(spec, machine) && DownClosed(spec, plan, machine) {
        TeardownFailClosed(oracle, Snapshot(), spec);
      }
      hide TidyFor, DownClosed, ProtectedSince, Present, Ordered;
      var n := count;
      while n > 0
        invariant 0 <= n <= |plan|
        invariant Plan.Teardown(oracle, Snapshot(), spec, plan, n) == goal
      {
        var report := Issue(UndoCommand(spec, plan[n - 1]));
        if report.SpawnError? {
          return Err(Spawn);
        }
        var verified := Check(spec, plan[n - 1], false);
        if verified.Err? {
          return verified;
        }
        n := n - 1;
      }
      r := Ok;
    }

    /** Installs every step in order, verifying each; any failure rolls back what it reached. */
    method InstallPlan(spec: TunnelSpec, plan: seq<Step>) returns (r: Outcome)
      requires Ordered(plan)
      modifies this
      ensures (r, Snapshot()) == Plan.Install(oracle, old(Snapshot()), spec, plan, 0)
      ensures r.Ok? ==> PresentTo(spec, plan, machine, |plan|)
      ensures plan == LinuxPlan(spec) && old(Clean(spec, machine)) ==>
                && ProtectedSince(spec, Snapshot(), |old(log)|)
                && (r.Err? && !r.error.RollbackFailed? ==> Clean(spec, machine))
    {
      ghost var goal := Plan.Install(oracle, Snapshot(), spec, plan, 0);
      ghost var reached := InstallFromAnywhere(oracle, Snapshot(), spec, plan, 0);
      if plan == LinuxPlan(spec) && Clean(spec, machine) {
        InstallFailClosed(oracle, Snapshot(), spec);
      }
      hide TidyFor, DownClosed, Clean, PresentTo, ProtectedSince, Plan.Teardown, RolledBackTo;
      var i := 0;
      while i < |plan|
        invariant 0 <= i <= |plan|
        invariant Plan.Install(oracle, Snapshot(), spec, plan, i) == goal
      {
        var step := ApplyStep(spec, plan[i]);
        if step.Err? {
          var rollback := TeardownPlan(spec, plan, i + 1);
          if rollback.Ok? {
            return step;
          }
          return Err(RollbackFailed(step.error, rollback.error));
        }
        i := i + 1;
      }
      r := Ok;
    }

    /** Restores, in install order, whatever no longer reads back. */
    method ReassertPlan(spec: TunnelSpec, plan: seq<Step>) returns (out: Plan.Reassertion)
      modifies this
      ensures (out, Snapshot()) == Plan.Reassert(oracle, old(Snapshot()), spec, plan, 0, Plan.Reassertion([], []))
      ensures Ordered(plan) && out.failed == [] ==> PresentTo(spec, plan, machine, |plan|)
      ensures old(TidyFor(spec, machine)) ==>
                forall i, f :: |old(log)| <= i < |log| && Covers(spec, f) && old(VerdictOf(spec, machine, f)) != Main
                  ==> VerdictOf(spec, log[i].machine, f) != Main
    {
      ghost var goal := Plan.Reassert(oracle, Snapshot(), spec, plan, 0, Plan.Reassertion([], []));
      if Ordered(plan) {
        Recovery.NoFailureMeansAllStand(oracle, Snapshot(), spec, plan, 0, Plan.Reassertion([], []));
      }
      if TidyFor(spec, machine) {
        Recovery.ReassertNeverExposes(oracle, Snapshot(), spec, plan);
      }
      out := Plan.Reassertion([], []);
      var i := 0;
      while i < |plan|
        invariant 0 <= i <= |plan|
        invariant Plan.Reassert(oracle, Snapshot(), spec, plan, i, out) == goal
      {
        var standing := Check(spec, plan[i], true);
        if standing.Err? {
          var r := ApplyStep(spec, plan[i]);
          if r.Ok? {
            out := out.(restored := out.restored + [plan[i].kind]);
          } else {
            out := out.(failed := out.failed + [plan[i].kind]);
          }
        }
        i := i + 1;
      }
    }

    method ListStaleIn(f: Family) returns (l: Reconcile.Listing)
      modifies this
      ensures (l, Snapshot()) == Reconcile.StaleForFamily(oracle, old(Snapshot()), f)
    {
      var rules := Issue(RuleShow(f));
      if !rules.ExitZero? {
        return Reconcile.Unreadable(Reconcile.ReadError(rules));
      }
      var table := Issue(TableShow(f));
      if table.SpawnError? || table.ExitNonZero? {
        return Reconcile.Unreadable(Reconcile.ReadError(table));
      }
      var s := machine.Of(f);
      var cleanup := [];
      if Count(s.rules, IsBackstopPriority) > 0 {
        cleanup := cleanup + [BackstopFlush(f)];
      }
      if Count(s.rules, IsPolicyLookup) > 0 {
        cleanup := cleanup + [RuleFlush(f)];
      }
      if s.table != [] {
        cleanup := cleanup + [TableFlush(f)];
      }
      assert cleanup == Reconcile.Stale(s, f);
      l := Reconcile.Listed(cleanup);
    }

    method ListStale() returns (l: Reconcile.Listing)
      modifies this
      ensures (l, Snapshot()) == Reconcile.StaleCleanup(oracle, old(Snapshot()))
    {
      var v4 := ListStaleIn(V4);
      if v4.Unreadable? {
        return v4;
      }
      var v6 := ListStaleIn(V6);
      if v6.Unreadable? {
        return v6;
      }
      l := Reconcile.Listed(v4.commands + v6.commands);
    }

    method RunBestEffort(commands: seq<Command>) returns (r: Outcome)
      modifies this
      ensures (r, Snapshot()) == Reconcile.BestEffort(oracle, old(Snapshot()), commands)
      ensures (forall c :: c in commands ==> !IsProbe(c)) ==>
                (r == Ok <==> Reconcile.Startable(oracle, |old(log)|, |commands|))
    {
      ghost var goal := Reconcile.BestEffort(oracle, Snapshot(), commands);
      if forall c :: c in commands ==> !IsProbe(c) {
        Reconcile.BestEffortOkIff(oracle, Snapshot(), commands);
      }
      var i := 0;
      while i < |commands|
        invariant 0 <= i <= |commands|
        invariant Reconcile.BestEffort(oracle, Snapshot(), commands[i..]) == goal
      {
        assert commands[i..][1..] == commands[i + 1..];
        var report := Issue(commands[i]);
        if report.SpawnError? {
          return Err(Spawn);
        }
        i := i + 1;
      }
      r := Ok;
    }

    /** At most four enumerate-and-remove passes, then one last read. */
    method ReconcileMachine() returns (r: Reconcile.ReconcileReport)
      modifies this
      ensures (r, Snapshot()) == Reconcile.From(oracle, old(Snapshot()), 0, [])
      ensures r.Reconciled? ==> Reconcile.MachineClean(machine)
    {
      hide Reconcile.StaleCleanup, Reconcile.BestEffort, Reconcile.MachineClean;
      ghost var goal := Reconcile.From(oracle, Snapshot(), 0, []);
      Reconcile.ReconciledIsClean(oracle, Snapshot(), 0, []);
      var removed := [];
      var pass := 0;
      while pass < Reconcile.MAX_PASSES
        invariant 0 <= pass <= Reconcile.MAX_PASSES
        invariant Reconcile.From(oracle, Snapshot(), pass, removed) == goal
      {
        var leftovers := ListStale();
        if leftovers.Unreadable? {
          return Reconcile.ReconcileFailed(leftovers.error);
        }
        if leftovers.commands == [] {
          return Reconcile.Reconciled(pass, removed);
        }
        var swept := RunBestEffort(leftovers.commands);
        if swept.Err? {
          return Reconcile.ReconcileFailed(swept.error);
        }
        removed := removed + leftovers.commands;
        pass := pass + 1;
      }
      var last := ListStale();
      if last.Unreadable? {
        return Reconcile.ReconcileFailed(last.error);
      }
      if last.commands == [] {
        return Reconcile.Reconciled(Reconcile.MAX_PASSES, removed);
      }
      r := Reconcile.ReconcileFailed(ResidueRemains(Reconcile.MAX_PASSES));
    }
  }
}
