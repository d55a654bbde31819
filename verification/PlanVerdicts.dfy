/**
  Which answers of the runner decide what an install, a teardown or a re-assertion returns, and how: exactly when each
  succeeds, which error it gives otherwise, and which steps a pass reports. The verdicts are in terms of the runner's
  answers and of what stood before the call; nothing here names an intermediate machine.
 */
module PlanVerdicts {
  import opened Kernel
  import opened Plan
  import opened PlanSafety
  import opened PlanReturns
  import opened Reconcile
  import opened PolicyManager
  import Reassertion

  /** What the runner reported for the last command of a log. */
  function LastAnswer(o: Oracle, log: seq<Entry>): Report
    requires log != []
  {
    var t := |log| - 1;
    if IsProbe(log[t].command) then o(t).probe else o(t).report
  }

  // ----- teardown ------------------------------------------------------------------------------

  /** The removal issued at `t` could be started and left none of `copies`, and that could be read. */
  predicate Removes(o: Oracle, t: nat, copies: nat) {
    && o(t).report != SpawnError && o(t + 1).probe == ExitZero
    && (copies == 0 || (copies == 1 && o(t).effect))
  }

  /** The one error of a removal: it could not be started or read, or something is still there. */
  predicate Complains(o: Oracle, log: seq<Entry>, e: PolicyError) {
    log != [] && e == if LastAnswer(o, log) == SpawnError then Spawn else Verification
  }

  lemma UndoStepVerdict(o: Oracle, w: World, spec: TunnelSpec, a: Step)
    ensures var (r, w') := UndoStep(o, w, spec, a);
            && w.log <= w'.log
            && (r.Ok? <==> Removes(o, |w.log|, Copies(spec, w.machine, a)))
            && (r.Ok? ==> |w'.log| == |w.log| + 2)
            && (r.Err? ==> Complains(o, w'.log, r.error))
            && forall s :: s != a ==> Copies(spec, w'.machine, s) == Copies(spec, w.machine, s)
  {
    UndoCopies(spec, w.machine, a, a);
    forall s ensures s != a ==>
        Copies(spec, Effect(w.machine, UndoCommand(spec, a)), s) == Copies(spec, w.machine, s) {
      UndoCopies(spec, w.machine, a, s);
    }
    PresentByCopies(spec, Effect(w.machine, UndoCommand(spec, a)), a);
    PresentByCopies(spec, w.machine, a);
    hide Copies, Present, Effect;
    MutationRun(o, w, UndoCommand(spec, a));
    EvaluateRun(o, Run(o, w, UndoCommand(spec, a)).1, spec, a, false);
  }

  /** The steps before `n`, taken away from the last to the first, two answers each. */
  ghost predicate AllRemove(o: Oracle, t: nat, spec: TunnelSpec, m: Machine, plan: seq<Step>, n: nat)
    requires n <= |plan|
  {
    forall j :: 0 <= j < n ==> Removes(o, t + 2 * (n - 1 - j), Copies(spec, m, plan[j]))
  }

  lemma AllRemoveLast(o: Oracle, t: nat, spec: TunnelSpec, m: Machine, m': Machine, plan: seq<Step>, n: nat)
    requires 0 < n <= |plan| && forall j :: 0 <= j < n - 1 ==> Copies(spec, m', plan[j]) == Copies(spec, m, plan[j])
    ensures AllRemove(o, t, spec, m, plan, n) <==>
            Removes(o, t, Copies(spec, m, plan[n - 1])) && AllRemove(o, t + 2, spec, m', plan, n - 1)
  {
    hide Removes, Copies;
    assert t + 2 * (n - 1 - (n - 1)) == t;
  }

  /**
    A teardown of any ordered plan, from any machine and under any runner: it succeeds if and only if each removal could
    be started, whatever it exited with, its read-back could be read, and at most one copy stood, and was removed. Its
    error is `Spawn` if the last command issued could not be started, and a failed verification otherwise.
   */
  lemma {:induction false} TeardownVerdict(o: Oracle, w: World, spec: TunnelSpec, plan: seq<Step>, n: nat)
    requires Ordered(plan) && n <= |plan|
    ensures var (r, w') := Teardown(o, w, spec, plan, n);
            && w.log <= w'.log
            && (r.Ok? <==> AllRemove(o, |w.log|, spec, w.machine, plan, n))
            && (r.Err? ==> Complains(o, w'.log, r.error))
    decreases n
  {
    hide UndoStep, Copies, Removes, Complains, Ordered;
    if n > 0 {
      var (r, w1) := UndoStep(o, w, spec, plan[n - 1]);
      UndoStepVerdict(o, w, spec, plan[n - 1]);
      forall j | 0 <= j < n - 1 ensures plan[j] != plan[n - 1] {
        OrderedDistinct(plan, j, n - 1);
      }
      AllRemoveLast(o, |w.log|, spec, w.machine, w1.machine, plan, n);
      if r.Ok? {
        hide AllRemove;
        TeardownVerdict(o, w1, spec, plan, n - 1);
      }
    }
  }

  // ----- install -------------------------------------------------------------------------------

  /** The command issued at `t` exited zero and its step then stood and was read; `stood` says it did before. */
  predicate Adds(o: Oracle, t: nat, stood: bool) {
    o(t).report == ExitZero && o(t + 1).probe == ExitZero && (stood || o(t).effect)
  }

  /** The error of a step whose command was issued at `t`. */
  function Cause(o: Oracle, t: nat): PolicyError {
    if o(t).report == SpawnError then Spawn
    else if o(t).report != ExitZero then CommandFailed("install")
    else if o(t + 1).probe == SpawnError then Spawn
    else Verification
  }

  lemma ApplyTakes(spec: TunnelSpec, m: Machine, a: Step)
    requires TidyFor(spec, m) && Covers(spec, a.family)
    ensures var m' := Effect(m, ApplyCommand(spec, a));
            Present(spec, m', a) && TidyFor(spec, m') && SameExcept(spec, m, m', a)
  {
    FrameAll(spec, m, a);
    TidyKept(spec, m, a);
    if !Present(spec, m, a) {
      Reassertion.MissingApplyTakes(spec, m, a);
    }
    hide TidyFor, Present, Effect, ApplyCommand;
  }

  lemma InstallStepVerdict(o: Oracle, w: World, spec: TunnelSpec, a: Step)
    requires TidyFor(spec, w.machine) && Covers(spec, a.family)
    ensures var (r, w') := InstallStep(o, w, spec, a);
            && w.log <= w'.log
            && (r.Ok? <==> Adds(o, |w.log|, Present(spec, w.machine, a)))
            && (r.Err? ==> r.error == Cause(o, |w.log|))
            && TidyFor(spec, w'.machine) && SameExcept(spec, w.machine, w'.machine, a)
            && |w'.log| == |w.log| + if o(|w.log|).report == ExitZero then 2 else 1
  {
    assert !IsProbe(ApplyCommand(spec, a));
    hide TidyFor, Present, Effect, ApplyCommand;
    ApplyTakes(spec, w.machine, a);
    MutationRun(o, w, ApplyCommand(spec, a));
    EvaluateRun(o, Run(o, w, ApplyCommand(spec, a)).1, spec, a, true);
  }

  /** The steps from `i` up to `k`, two answers each. */
  ghost predicate AllAdd(o: Oracle, t: nat, spec: TunnelSpec, m: Machine, plan: seq<Step>, i: nat, k: nat)
    requires i <= k <= |plan|
  {
    forall j :: i <= j < k ==> Adds(o, t + 2 * (j - i), Present(spec, m, plan[j]))
  }

  lemma AllAddFirst(o: Oracle, t: nat, spec: TunnelSpec, m: Machine, m': Machine, plan: seq<Step>, i: nat, k: nat)
    requires i < k <= |plan| && forall j :: i < j < k ==> Present(spec, m', plan[j]) == Present(spec, m, plan[j])
    ensures AllAdd(o, t, spec, m, plan, i, k) <==>
            Adds(o, t, Present(spec, m, plan[i])) && AllAdd(o, t + 2, spec, m', plan, i + 1, k)
  {
    hide Adds, Present;
    assert t + 2 * (i - i) == t;
  }

  /** Where an install that began at answer `t` failed, and why. */
  ghost predicate FailsAt(
    o: Oracle, t: nat, spec: TunnelSpec, m: Machine, plan: seq<Step>, i: nat, k: nat, log: seq<Entry>, e: PolicyError)
  {
    && i <= k < |plan| && AllAdd(o, t, spec, m, plan, i, k)
    && !Adds(o, t + 2 * (k - i), Present(spec, m, plan[k]))
    && (if e.RollbackFailed? then e.cause == Cause(o, t + 2 * (k - i)) && Complains(o, log, e.rollback)
        else e == Cause(o, t + 2 * (k - i)))
  }

  /**
    An install from any machine our policy can govern, under any runner: it succeeds if and only if each command exited
    zero, could be read back, and took effect or was not needed. Otherwise the first step that did not is the one that
    failed; its own error is the one returned, and it is the cause, not the rollback, in a `RollbackFailed`, whose
    other half says how the last removal went.
   */
  lemma {:induction false} InstallVerdict(o: Oracle, w: World, spec: TunnelSpec, plan: seq<Step>, i: nat)
    returns (k: nat)
    requires Ordered(plan) && Reassertion.WithinTunnel(spec, plan) && i <= |plan| && TidyFor(spec, w.machine)
    ensures var (r, w') := Install(o, w, spec, plan, i);
            && (r.Ok? <==> AllAdd(o, |w.log|, spec, w.machine, plan, i, |plan|))
            && (r.Err? ==> FailsAt(o, |w.log|, spec, w.machine, plan, i, k, w'.log, r.error))
    decreases |plan| - i
  {
    hide InstallStep, Teardown, TidyFor, Present, Adds, Cause, Complains, Ordered, AllAdd;
    k := i;
    if i == |plan| {
      NothingToAdd(o, |w.log|, spec, w.machine, plan, i);
    } else {
      var (r, w1) := InstallStep(o, w, spec, plan[i]);
      InstallStepVerdict(o, w, spec, plan[i]);
      forall j | i < j < |plan| ensures plan[j] != plan[i] {
        OrderedDistinct(plan, i, j);
      }
      AllAddFirst(o, |w.log|, spec, w.machine, w1.machine, plan, i, |plan|);
      if r.Ok? {
        StepOkIsTwo(o, |w.log|, Present(spec, w.machine, plan[i]));
        k := InstallVerdict(o, w1, spec, plan, i + 1);
        if Install(o, w, spec, plan, i).0.Err? {
          FailsLater(o, |w.log|, spec, w.machine, w1.machine, plan, i, k, Install(o, w, spec, plan, i).1.log,
            Install(o, w, spec, plan, i).0.error);
        }
      } else {
        FailsHere(o, w, spec, plan, i);
      }
    }
  }

  lemma FailsHere(o: Oracle, w: World, spec: TunnelSpec, plan: seq<Step>, i: nat)
    requires Ordered(plan) && i < |plan| && TidyFor(spec, w.machine) && Covers(spec, plan[i].family)
    requires InstallStep(o, w, spec, plan[i]).0.Err?
    ensures var (r, w') := Install(o, w, spec, plan, i);
            r.Err? && FailsAt(o, |w.log|, spec, w.machine, plan, i, i, w'.log, r.error)
  {
    hide InstallStep, Teardown, TidyFor, Present, Adds, Cause, Complains, Ordered;
    var (r, w1) := InstallStep(o, w, spec, plan[i]);
    InstallStepVerdict(o, w, spec, plan[i]);
    TeardownVerdict(o, w1, spec, plan, i + 1);
    CauseIsPlain(o, |w.log|);
    var (rollback, w2) := Teardown(o, w1, spec, plan, i + 1);
    assert Install(o, w, spec, plan, i) ==
           (if rollback.Ok? then r else Err(RollbackFailed(r.error, rollback.error)), w2);
    assert |w.log| + 2 * (i - i) == |w.log|;
  }

  lemma FailsLater(o: Oracle, t: nat, spec: TunnelSpec, m: Machine, m': Machine, plan: seq<Step>, i: nat, k: nat,
      log: seq<Entry>, e: PolicyError)
    requires i < k < |plan| && forall j :: i < j <= k ==> Present(spec, m', plan[j]) == Present(spec, m, plan[j])
    requires Adds(o, t, Present(spec, m, plan[i])) && FailsAt(o, t + 2, spec, m', plan, i + 1, k, log, e)
    ensures FailsAt(o, t, spec, m, plan, i, k, log, e)
  {
    hide Adds, Cause, Complains, Present;
    AllAddFirst(o, t, spec, m, m', plan, i, k);
    assert t + 2 * (k - i) == t + 2 + 2 * (k - (i + 1));
  }

  lemma NothingToAdd(o: Oracle, t: nat, spec: TunnelSpec, m: Machine, plan: seq<Step>, i: nat)
    requires i <= |plan|
    ensures AllAdd(o, t, spec, m, plan, i, i)
  {
  }

  lemma StepOkIsTwo(o: Oracle, t: nat, stood: bool)
    requires Adds(o, t, stood)
    ensures o(t).report == ExitZero
  {
  }

  lemma CauseIsPlain(o: Oracle, t: nat)
    ensures !Cause(o, t).RollbackFailed?
  {
  }

  // ----- re-assertion --------------------------------------------------------------------------

  /** What becomes of `plan[i..]` in a pass whose next answer is the `t`-th, judged by what stood when it began. */
  function Treatments(o: Oracle, t: nat, spec: TunnelSpec, m: Machine, plan: seq<Step>, i: nat): seq<Treatment>
    requires i <= |plan|
    decreases |plan| - i
  {
    if i == |plan| then []
    else
      var stood := Present(spec, m, plan[i]);
      if o(t).probe == ExitZero && stood then [Standing] + Treatments(o, t + 1, spec, m, plan, i + 1)
      else if Adds(o, t + 1, stood) then [Restored] + Treatments(o, t + 3, spec, m, plan, i + 1)
      else
        var commands := if o(t + 1).report == ExitZero then 3 else 2;
        [Treatment.Failed] + Treatments(o, t + commands, spec, m, plan, i + 1)
  }

  /** The kinds of those of `steps` that were treated so, in order. */
  function KindsTreated(steps: seq<Step>, treatments: seq<Treatment>, t: Treatment): seq<StepKind>
    decreases |steps|
  {
    if steps == [] || treatments == [] then []
    else (if treatments[0] == t then [steps[0].kind] else []) + KindsTreated(steps[1..], treatments[1..], t)
  }

  lemma KindsTreatedFirst(steps: seq<Step>, a: Treatment, rest: seq<Treatment>, t: Treatment)
    requires steps != []
    ensures KindsTreated(steps, [a] + rest, t) ==
            (if a == t then [steps[0].kind] else []) + KindsTreated(steps[1..], rest, t)
  {
    assert ([a] + rest)[1..] == rest;
  }

  lemma {:induction false} TreatmentsFrame(
    o: Oracle, t: nat, spec: TunnelSpec, m: Machine, m': Machine, plan: seq<Step>, i: nat)
    requires i <= |plan| && forall j :: i <= j < |plan| ==> Present(spec, m', plan[j]) == Present(spec, m, plan[j])
    ensures Treatments(o, t, spec, m', plan, i) == Treatments(o, t, spec, m, plan, i)
    decreases |plan| - i
  {
    hide Present, Adds;
    if i < |plan| {
      TreatmentsFrame(o, t + 1, spec, m, m', plan, i + 1);
      TreatmentsFrame(o, t + 2, spec, m, m', plan, i + 1);
      TreatmentsFrame(o, t + 3, spec, m, m', plan, i + 1);
    }
  }

  lemma ReassertStepVerdict(o: Oracle, w: World, spec: TunnelSpec, plan: seq<Step>, i: nat)
    requires Ordered(plan) && i < |plan| && TidyFor(spec, w.machine) && Covers(spec, plan[i].family)
    ensures var (t, w') := ReassertStep(o, w, spec, plan[i]);
            && TidyFor(spec, w'.machine)
            && Treatments(o, |w.log|, spec, w.machine, plan, i) ==
                 [t] + Treatments(o, |w'.log|, spec, w'.machine, plan, i + 1)
  {
    var a := plan[i];
    var (standing, w1) := Evaluate(o, w, spec, a, true);
    hide Present, TidyFor, InstallStep, Adds;
    EvaluateRun(o, w, spec, a, true);
    InstallStepVerdict(o, w1, spec, a);
    var w' := ReassertStep(o, w, spec, a).1;
    forall j | i < j < |plan| ensures Present(spec, w'.machine, plan[j]) == Present(spec, w.machine, plan[j]) {
      OrderedDistinct(plan, i, j);
    }
    TreatmentsFrame(o, |w'.log|, spec, w.machine, w'.machine, plan, i + 1);
    if Adds(o, |w.log| + 1, Present(spec, w.machine, a)) {
      StepOkIsTwo(o, |w.log| + 1, Present(spec, w.machine, a));
    }
  }

  /**
    A pass under any runner reports, in plan order, as restored exactly the steps that did not read back standing and
    whose command then worked and was read back, and as failed exactly those whose did not.
   */
  lemma {:induction false} ReassertVerdict(
    o: Oracle, w: World, spec: TunnelSpec, plan: seq<Step>, i: nat, acc: Plan.Reassertion)
    requires Ordered(plan) && Reassertion.WithinTunnel(spec, plan) && i <= |plan| && TidyFor(spec, w.machine)
    ensures var treatments := Treatments(o, |w.log|, spec, w.machine, plan, i);
            Reassert(o, w, spec, plan, i, acc).0 == Plan.Reassertion(
              acc.restored + KindsTreated(plan[i..], treatments, Restored),
              acc.failed + KindsTreated(plan[i..], treatments, Treatment.Failed))
    decreases |plan| - i
  {
    hide ReassertStep, TidyFor, Treatments, KindsTreated, Ordered;
    if i == |plan| {
      NoneTreated(o, |w.log|, spec, w.machine, plan, i);
    } else {
      var (t, w1) := ReassertStep(o, w, spec, plan[i]);
      var rest := Treatments(o, |w1.log|, spec, w1.machine, plan, i + 1);
      ReassertStepVerdict(o, w, spec, plan, i);
      assert plan[i..][0] == plan[i] && plan[i..][1..] == plan[i + 1..];
      KindsTreatedFirst(plan[i..], t, rest, Restored);
      KindsTreatedFirst(plan[i..], t, rest, Treatment.Failed);
      ReassertVerdict(o, w1, spec, plan, i + 1, Tally(acc, plan[i].kind, t));
    }
  }

  lemma NoneTreated(o: Oracle, t: nat, spec: TunnelSpec, m: Machine, plan: seq<Step>, i: nat)
    requires i == |plan|
    ensures forall x :: KindsTreated(plan[i..], Treatments(o, t, spec, m, plan, i), x) == []
  {
  }

  // ----- the manager's install on a clean machine ----------------------------------------------

  /** The flush leaves a clean machine clean, and fails only if one of its commands could not be started. */
  lemma FlushOnClean(o: Oracle, w: World, spec: TunnelSpec)
    requires Clean(spec, w.machine)
    ensures var flushes := |PreInstallCleanup(spec)|;
            var (r, w') := BestEffort(o, w, PreInstallCleanup(spec));
            && (r == Ok <==> Startable(o, |w.log|, flushes))
            && (r.Ok? ==> Clean(spec, w'.machine) && |w'.log| == |w.log| + flushes)
  {
    CleanupIsFlushes(spec);
    hide BestEffort, PreInstallCleanup, Present, TidyFor, LinuxPlan;
    BestEffortOkIff(o, w, PreInstallCleanup(spec));
    FlushesOnlyLose(o, w, spec, PreInstallCleanup(spec));
  }

  /** Every command of a whole plan took effect, exited zero and could be read back. */
  ghost predicate AllWork(o: Oracle, t: nat, steps: nat) {
    forall j :: 0 <= j < steps ==> Adds(o, t + 2 * j, false)
  }

  lemma CleanInstallOkIff(o: Oracle, w: World, spec: TunnelSpec)
    requires Clean(spec, w.machine)
    ensures Install(o, w, spec, LinuxPlan(spec), 0).0.Ok? <==> AllWork(o, |w.log|, |LinuxPlan(spec)|)
  {
    var plan := LinuxPlan(spec);
    assert Reassertion.WithinTunnel(spec, plan);
    LinuxPlanOrdered(spec);
    hide Install, LinuxPlan, TidyFor, Present, AllAdd, AllWork, Ordered, Reassertion.WithinTunnel;
    var k := InstallVerdict(o, w, spec, plan, 0);
    NothingStood(o, |w.log|, spec, w.machine, plan);
  }

  lemma NothingStood(o: Oracle, t: nat, spec: TunnelSpec, m: Machine, plan: seq<Step>)
    requires AbsentFrom(spec, plan, m, 0)
    ensures AllAdd(o, t, spec, m, plan, 0, |plan|) <==> AllWork(o, t, |plan|)
  {
    hide Present, Adds;
    if AllAdd(o, t, spec, m, plan, 0, |plan|) {
      forall j | 0 <= j < |plan| ensures Adds(o, t + 2 * j, false) {
        assert Adds(o, t + 2 * (j - 0), Present(spec, m, plan[j]));
      }
    }
    if AllWork(o, t, |plan|) {
      forall j | 0 <= j < |plan| ensures Adds(o, t + 2 * (j - 0), Present(spec, m, plan[j])) {
        assert Adds(o, t + 2 * j, false);
      }
    }
  }

  /**
    The manager's install on a clean machine, under any runner: it succeeds if and only if every flush could be started,
    whatever it exited with, and after that every step's command acted, exited zero and could be read back.
   */
  lemma ManagedInstallOkIff(o: Oracle, w: World, spec: TunnelSpec)
    requires Clean(spec, w.machine)
    ensures var flushes := |PreInstallCleanup(spec)|;
            ManagedInstall(o, w, spec).0 == Ok <==>
              Startable(o, |w.log|, flushes) && AllWork(o, |w.log| + flushes, |LinuxPlan(spec)|)
  {
    hide BestEffort, PreInstallCleanup, Install, LinuxPlan, Clean, AllWork, Startable;
    FlushOnClean(o, w, spec);
    var (r, w1) := BestEffort(o, w, PreInstallCleanup(spec));
    if r.Ok? {
      CleanInstallOkIff(o, w1, spec);
    }
  }

  // ----- what is installed ---------------------------------------------------------------------

  /** The four commands of a family, in order, with the numbers the kernel is given. */
  lemma LinuxCommands(spec: TunnelSpec, f: Family)
    ensures var addr := spec.AddrOf(f);
            && (forall i :: 0 <= i < 4 ==> FamilySteps(f)[i].family == f)
            && ApplyCommand(spec, FamilySteps(f)[0]) == RuleAdd(f, Rule(18500, Host(addr), Unreachable))
            && ApplyCommand(spec, FamilySteps(f)[1]) == RouteAdd(f, Route(4000, Refuse))
            && ApplyCommand(spec, FamilySteps(f)[2]) == RuleAdd(f, Rule(18000, Host(addr), Lookup(218)))
            && ApplyCommand(spec, FamilySteps(f)[3]) == RouteAdd(f, Route(100, Device(spec.device)))
  {
  }
}
