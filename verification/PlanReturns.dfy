/**
  What a return value proves when the run did not start from a clean machine, and when a teardown
  can succeed at all.
 */
module PlanReturns {
  import opened Kernel
  import opened Plan
  import opened PlanSafety

  /** `Ok` from any start means the steps it was asked to remove are gone; the others are untouched. */
  lemma {:induction false} TeardownFromAnywhere(o: Oracle, w: World, spec: TunnelSpec, plan: seq<Step>, n: nat)
    requires Ordered(plan) && n <= |plan|
    ensures var (r, w') := Teardown(o, w, spec, plan, n);
            && (r.Ok? ==> forall j :: 0 <= j < n ==> !Present(spec, w'.machine, plan[j]))
            && (forall j :: n <= j < |plan| ==> Present(spec, w'.machine, plan[j]) == Present(spec, w.machine, plan[j]))
    decreases n
  {
    hide UndoStep, Present;
    if n > 0 {
      var (r, w1) := UndoStep(o, w, spec, plan[n - 1]);
      UndoStepRun(o, w, spec, plan[n - 1]);
      forall j | n <= j < |plan| ensures plan[j] != plan[n - 1] {
        OrderedDistinct(plan, j, n - 1);
      }
      if r.Ok? {
        TeardownFromAnywhere(o, w1, spec, plan, n - 1);
      }
    }
  }

  /** The machine holds nothing of `plan[..n]`, and exactly what `m` held of the rest. */
  ghost predicate RolledBackTo(spec: TunnelSpec, plan: seq<Step>, m: Machine, m': Machine, n: nat) {
    && (forall j :: 0 <= j < n && j < |plan| ==> !Present(spec, m', plan[j]))
    && (forall j :: n <= j < |plan| ==> Present(spec, m', plan[j]) == Present(spec, m, plan[j]))
  }

  /**
    The exact meaning of `install` from any start. An error other than `RollbackFailed` clears the
    steps it reached and leaves the later ones as they were found.
   */
  lemma {:induction false} InstallFromAnywhere(o: Oracle, w: World, spec: TunnelSpec, plan: seq<Step>, i: nat)
    returns (reached: nat)
    requires Ordered(plan) && i <= |plan| && PresentTo(spec, plan, w.machine, i)
    ensures var (r, w') := Install(o, w, spec, plan, i);
            && (r.Ok? ==> PresentTo(spec, plan, w'.machine, |plan|))
            && (r.Err? && !r.error.RollbackFailed? ==>
                  i < reached <= |plan| && RolledBackTo(spec, plan, w.machine, w'.machine, reached))
    decreases |plan| - i
  {
    hide InstallStep, Teardown, Present;
    reached := 0;
    if i < |plan| {
      var (r, w1) := InstallStep(o, w, spec, plan[i]);
      InstallStepRun(o, w, spec, plan[i]);
      forall j | 0 <= j < |plan| && j != i ensures plan[j] != plan[i] {
        OrderedDistinct(plan, j, i);
      }
      if r.Ok? {
        reached := InstallFromAnywhere(o, w1, spec, plan, i + 1);
      } else {
        reached := i + 1;
        TeardownFromAnywhere(o, w1, spec, plan, i + 1);
      }
    }
  }

  /**
    "A caller holding any other error holds a clean machine" is true exactly when nothing of the
    plan beyond the failing step was standing before the call.
   */
  lemma CleanErrorCondition(o: Oracle, w: World, spec: TunnelSpec, plan: seq<Step>) returns (reached: nat)
    requires Ordered(plan)
    ensures var (r, w') := Install(o, w, spec, plan, 0);
            r.Err? && !r.error.RollbackFailed? ==>
              && 0 < reached <= |plan|
              && (AbsentFrom(spec, plan, w'.machine, 0) <==> AbsentFrom(spec, plan, w.machine, reached))
  {
    hide Install, Present;
    reached := InstallFromAnywhere(o, w, spec, plan, 0);
  }

  // ----- a machine with residue ----------------------------------------------------------------

  function DemoSpec(): TunnelSpec { TunnelSpec("tun0", 7, 8, false) }

  /** A rule a dead session left behind, over an empty table. */
  function StaleMachine(): Machine {
    Machine(Stack([PolicyRule(7)], []), Stack([], []))
  }

  function FirstFails(t: nat): Response {
    if t == 0 then Response(false, ExitNonZero, ExitZero) else Response(true, ExitZero, ExitZero)
  }

  /** One failing `rule add` over residue: a plain error, the stale rule still standing, the address unprotected. */
  lemma ErrorOverResidue()
    ensures var plan := LinuxPlan(DemoSpec());
            var (r, w') := Install(FirstFails, World(StaleMachine(), []), DemoSpec(), plan, 0);
            && r == Err(CommandFailed("install"))
            && Present(DemoSpec(), w'.machine, Step(V4, PolicyRuleStep))
            && VerdictOf(DemoSpec(), w'.machine, V4) == Main
  {
  }

  // ----- and the whole family of machines it fails on --------------------------------------------

  /** The promise made to callers of `install` on machine `m`, whatever the runner does. */
  ghost predicate ErrorsLeaveNothing(spec: TunnelSpec, plan: seq<Step>, m: Machine) {
    forall o: Oracle, log: seq<Entry> ::
      var (r, w') := Install(o, World(m, log), spec, plan, 0);
      r.Err? && !r.error.RollbackFailed? ==> AbsentFrom(spec, plan, w'.machine, 0)
  }

  lemma StepsKeepDuplicates(o: Oracle, w: World, spec: TunnelSpec, a: Step, s: Step)
    ensures Copies(spec, InstallStep(o, w, spec, a).1.machine, s) >= Copies(spec, w.machine, s)
    ensures Copies(spec, UndoStep(o, w, spec, a).1.machine, s) >= Copies(spec, w.machine, s) - if a == s then 1 else 0
  {
    hide Copies, Effect, Present;
    ApplyCopies(spec, w.machine, a, s);
    UndoCopies(spec, w.machine, a, s);
  }

  lemma {:induction false} DuplicateStopsTeardown(o: Oracle, w: World, spec: TunnelSpec, plan: seq<Step>, n: nat)
    requires Ordered(plan) && 0 < n <= |plan| && Copies(spec, w.machine, plan[0]) > 1
    ensures Teardown(o, w, spec, plan, n).0.Err?
    decreases n
  {
    hide UndoStep, Copies, Present;
    var (r, w1) := UndoStep(o, w, spec, plan[n - 1]);
    StepsKeepDuplicates(o, w, spec, plan[n - 1], plan[0]);
    if n == 1 {
      PresentByCopies(spec, w1.machine, plan[0]);
      UndoStepRun(o, w, spec, plan[0]);
    } else {
      OrderedDistinct(plan, 0, n - 1);
      if r.Ok? {
        DuplicateStopsTeardown(o, w1, spec, plan, n - 1);
      }
    }
  }

  lemma {:induction false} DuplicateFailsRollback(o: Oracle, w: World, spec: TunnelSpec, plan: seq<Step>, i: nat)
    requires Ordered(plan) && plan != [] && i <= |plan| && Copies(spec, w.machine, plan[0]) > 1
    ensures var r := Install(o, w, spec, plan, i).0;
            r.Err? ==> r.error.RollbackFailed?
    decreases |plan| - i
  {
    hide InstallStep, Teardown, Copies;
    if i < |plan| {
      var (r, w1) := InstallStep(o, w, spec, plan[i]);
      StepsKeepDuplicates(o, w, spec, plan[i], plan[0]);
      if r.Ok? {
        DuplicateFailsRollback(o, w1, spec, plan, i + 1);
      } else {
        DuplicateStopsTeardown(o, w1, spec, plan, i + 1);
      }
    }
  }

  lemma FirstFailsUndoes(w: World, spec: TunnelSpec, a: Step)
    requires |w.log| == 1 && Copies(spec, w.machine, a) <= 1
    ensures UndoStep(FirstFails, w, spec, a).0.Ok?
  {
    hide Copies, Effect, Present;
    var m := Effect(w.machine, UndoCommand(spec, a));
    UndoCopies(spec, w.machine, a, a);
    PresentByCopies(spec, m, a);
  }

  /** A runner whose very first command fails and does nothing: the rest of the plan is left as it was. */
  lemma FirstFailureKeepsRest(spec: TunnelSpec, plan: seq<Step>, m: Machine)
    requires Ordered(plan) && plan != [] && Copies(spec, m, plan[0]) <= 1
    ensures var (r, w') := Install(FirstFails, World(m, []), spec, plan, 0);
            && r.Err? && !r.error.RollbackFailed?
            && forall j :: 1 <= j < |plan| ==> Present(spec, w'.machine, plan[j]) == Present(spec, m, plan[j])
  {
    hide UndoStep, Copies, Present;
    var (r, w1) := InstallStep(FirstFails, World(m, []), spec, plan[0]);
    assert r == Err(CommandFailed("install")) && w1.machine == m && |w1.log| == 1;
    FirstFailsUndoes(w1, spec, plan[0]);
    TeardownFromAnywhere(FirstFails, w1, spec, plan, 1);
    var u := UndoStep(FirstFails, w1, spec, plan[0]);
    assert Teardown(FirstFails, w1, spec, plan, 1).0 == Ok by {
      assert Teardown(FirstFails, u.1, spec, plan, 0).0 == Ok;
    }
  }

  /**
    The exact machines on which "any other error holds a clean machine" is true: nothing of the plan
    beyond its first step stands before the call, or the first step is already there twice, so that no
    rollback ever succeeds.
   */
  lemma ErrorsLeaveNothingIff(spec: TunnelSpec, plan: seq<Step>, m: Machine)
    requires Ordered(plan)
    ensures ErrorsLeaveNothing(spec, plan, m) <==>
            plan == [] || Copies(spec, m, plan[0]) > 1 || AbsentFrom(spec, plan, m, 1)
  {
    hide Install, Copies, Present;
    if plan == [] || Copies(spec, m, plan[0]) > 1 || AbsentFrom(spec, plan, m, 1) {
      forall o: Oracle, log: seq<Entry>
        ensures var (r, w') := Install(o, World(m, log), spec, plan, 0);
                r.Err? && !r.error.RollbackFailed? ==> AbsentFrom(spec, plan, w'.machine, 0)
      {
        var reached := CleanErrorCondition(o, World(m, log), spec, plan);
        if plan != [] && Copies(spec, m, plan[0]) > 1 {
          DuplicateFailsRollback(o, World(m, log), spec, plan, 0);
        }
      }
    } else {
      FirstFailureKeepsRest(spec, plan, m);
      var (r, w') := Install(FirstFails, World(m, []), spec, plan, 0);
      var j: nat :| 1 <= j < |plan| && Present(spec, m, plan[j]);
      assert Present(spec, w'.machine, plan[j]);
    }
  }

  // ----- when a teardown can succeed -----------------------------------------------------------

  lemma UndoAbsent(spec: TunnelSpec, m: Machine, a: Step)
    requires !Present(spec, m, a)
    ensures Effect(m, UndoCommand(spec, a)) == m
  {
    if IsRuleStep(a.kind) {
      RemoveAbsent(m.Of(a.family).rules, Is(RuleOf(spec, a)));
    } else {
      RemoveAbsent(m.Of(a.family).table, Is(RouteOf(spec, a)));
    }
  }

  /** Idempotence: once nothing is left, a teardown whose probes can be read changes nothing and says `Ok`. */
  lemma {:induction false} TeardownIdempotent(o: Oracle, w: World, spec: TunnelSpec, plan: seq<Step>, n: nat)
    requires n <= |plan| && forall j :: 0 <= j < n ==> !Present(spec, w.machine, plan[j])
    requires forall t :: o(t).probe.ExitZero? && !o(t).report.SpawnError?
    ensures var (r, w') := Teardown(o, w, spec, plan, n);
            r.Ok? && w'.machine == w.machine
    decreases n
  {
    if n > 0 {
      hide Present;
      UndoAbsent(spec, w.machine, plan[n - 1]);
      var (r, w1) := UndoStep(o, w, spec, plan[n - 1]);
      MutationRun(o, w, UndoCommand(spec, plan[n - 1]));
      EvaluateRun(o, Run(o, w, UndoCommand(spec, plan[n - 1])).1, spec, plan[n - 1], false);
      assert r.Ok? && w1.machine == w.machine;
      TeardownIdempotent(o, w1, spec, plan, n - 1);
    }
  }

  lemma UndoStepResponsive(o: Oracle, w: World, spec: TunnelSpec, a: Step)
    requires Responsive(o)
    ensures var (r, w') := UndoStep(o, w, spec, a);
            && (r.Ok? <==> Copies(spec, w.machine, a) <= 1)
            && forall s :: s != a ==> Copies(spec, w'.machine, s) == Copies(spec, w.machine, s)
  {
    var w1 := Run(o, w, UndoCommand(spec, a)).1;
    MutationRun(o, w, UndoCommand(spec, a));
    EvaluateRun(o, w1, spec, a, false);
    UndoCopies(spec, w.machine, a, a);
    PresentByCopies(spec, w1.machine, a);
    forall s ensures s != a ==> Copies(spec, w1.machine, s) == Copies(spec, w.machine, s) {
      UndoCopies(spec, w.machine, a, s);
    }
  }

  /** With a runner that does everything asked of it, a teardown succeeds exactly when no step is duplicated. */
  lemma {:induction false} TeardownSucceedsIff(o: Oracle, w: World, spec: TunnelSpec, plan: seq<Step>, n: nat)
    requires Responsive(o) && Ordered(plan) && n <= |plan|
    ensures Teardown(o, w, spec, plan, n).0.Ok? <==> forall j :: 0 <= j < n ==> Copies(spec, w.machine, plan[j]) <= 1
    decreases n
  {
    hide UndoStep, Copies;
    if n > 0 {
      var (r, w1) := UndoStep(o, w, spec, plan[n - 1]);
      UndoStepResponsive(o, w, spec, plan[n - 1]);
      forall j | 0 <= j < n - 1 ensures plan[j] != plan[n - 1] {
        OrderedDistinct(plan, j, n - 1);
      }
      if r.Ok? {
        TeardownSucceedsIff(o, w1, spec, plan, n - 1);
      }
    }
  }
}
