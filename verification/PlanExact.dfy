/**
  "Exactly as it was found": what an install adds, and a rollback or teardown takes away again, down to the place
  of every foreign rule.
 */
module PlanExact {
  import opened Kernel
  import opened Plan
  import opened PlanSafety
  import opened PlanReturns
  import opened Reconcile
  import opened PolicyManager

  /** The machine with these steps added in order. */
  function Built(spec: TunnelSpec, m: Machine, steps: seq<Step>): Machine {
    if steps == [] then m
    else Effect(Built(spec, m, steps[..|steps| - 1]), ApplyCommand(spec, steps[|steps| - 1]))
  }

  lemma {:induction false} RemoveInserted<T>(s: seq<T>, x: T, key: T -> nat, p: T -> bool)
    requires p(x) && forall y :: y in s ==> !p(y)
    ensures RemoveFirst(Insert(s, x, key), p) == s
  {
    if s != [] {
      assert s[0] in s;
      if key(x) < key(s[0]) {
        assert ([x] + s)[1..] == s;
      } else {
        RemoveInserted(s[1..], x, key, p);
        assert Insert(s, x, key)[1..] == Insert(s[1..], x, key);
      }
    }
  }

  /** Removing what was just added to a machine without it gives that very machine back. */
  lemma UndoInvertsApply(spec: TunnelSpec, m: Machine, a: Step)
    requires !Present(spec, m, a)
    ensures Effect(Effect(m, ApplyCommand(spec, a)), UndoCommand(spec, a)) == m
    ensures var m' := Effect(m, ApplyCommand(spec, a)); m' == m || Present(spec, m', a)
  {
    var s := m.Of(a.family);
    if IsRuleStep(a.kind) {
      InsertMembers(s.rules, RuleOf(spec, a), PriorityOf);
      RemoveInserted(s.rules, RuleOf(spec, a), PriorityOf, Is(RuleOf(spec, a)));
    } else {
      InsertMembers(s.table, RouteOf(spec, a), MetricOf);
      RemoveInserted(s.table, RouteOf(spec, a), MetricOf, Is(RouteOf(spec, a)));
      RemoveAbsent(s.table, Is(RouteOf(spec, a)));
    }
  }

  lemma BuiltSnoc(spec: TunnelSpec, m: Machine, plan: seq<Step>, n: nat)
    requires n < |plan|
    ensures Built(spec, m, plan[..n + 1]) == Effect(Built(spec, m, plan[..n]), ApplyCommand(spec, plan[n]))
  {
    assert plan[..n + 1][..n] == plan[..n];
  }

  /** Building some steps of a plan brings none of the others. */
  lemma {:induction false} BuiltLacksLater(spec: TunnelSpec, m: Machine, plan: seq<Step>, n: nat, k: nat)
    requires Ordered(plan) && n <= k < |plan| && !Present(spec, m, plan[k])
    ensures !Present(spec, Built(spec, m, plan[..n]), plan[k])
    decreases n
  {
    hide Present, Effect;
    if n > 0 {
      BuiltLacksLater(spec, m, plan, n - 1, k);
      BuiltSnoc(spec, m, plan, n - 1);
      OrderedDistinct(plan, n - 1, k);
      Frame(spec, Built(spec, m, plan[..n - 1]), plan[n - 1], plan[k]);
    }
  }

  /** After one install step the machine is one of two; after `Ok` it is the one with the step. */
  lemma InstallStepExact(o: Oracle, w: World, spec: TunnelSpec, a: Step)
    requires !Present(spec, w.machine, a)
    ensures var (r, w') := InstallStep(o, w, spec, a);
            && (w'.machine == w.machine || w'.machine == Effect(w.machine, ApplyCommand(spec, a)))
            && (r.Ok? ==> w'.machine == Effect(w.machine, ApplyCommand(spec, a)))
  {
    hide Effect, Present;
    MutationRun(o, w, ApplyCommand(spec, a));
    EvaluateRun(o, Run(o, w, ApplyCommand(spec, a)).1, spec, a, true);
  }

  /** A verified removal of a step from either of those two leaves the one without it. */
  lemma UndoStepExact(o: Oracle, w: World, spec: TunnelSpec, a: Step, m: Machine)
    requires !Present(spec, m, a) && (w.machine == m || w.machine == Effect(m, ApplyCommand(spec, a)))
    ensures var (r, w') := UndoStep(o, w, spec, a);
            r.Ok? ==> w'.machine == m
  {
    hide Effect, Present;
    UndoInvertsApply(spec, m, a);
    UndoAbsent(spec, m, a);
    MutationRun(o, w, UndoCommand(spec, a));
    EvaluateRun(o, Run(o, w, UndoCommand(spec, a)).1, spec, a, false);
  }

  /** A teardown of the first `n` steps that says `Ok` gives back the machine they were built on. */
  lemma {:induction false} TeardownRestores(o: Oracle, w: World, spec: TunnelSpec, plan: seq<Step>, n: nat, m: Machine)
    requires Ordered(plan) && n <= |plan| && AbsentFrom(spec, plan, m, 0)
    requires w.machine == Built(spec, m, plan[..n])
    ensures var (r, w') := Teardown(o, w, spec, plan, n);
            r.Ok? ==> w'.machine == m
    decreases n
  {
    hide Effect, Present, UndoStep;
    if n > 0 {
      BuiltSnoc(spec, m, plan, n - 1);
      BuiltLacksLater(spec, m, plan, n - 1, n - 1);
      UndoStepExact(o, w, spec, plan[n - 1], Built(spec, m, plan[..n - 1]));
      var (r, w1) := UndoStep(o, w, spec, plan[n - 1]);
      if r.Ok? {
        TeardownRestores(o, w1, spec, plan, n - 1, m);
      }
    } else {
      assert plan[..0] == [];
    }
  }

  /**
    An install from a machine without the plan, under any runner: `Ok` builds exactly the plan on it, and an error
    other than `RollbackFailed` leaves the machine exactly as it was found, foreign rules, order and all.
   */
  lemma {:induction false} InstallRestores(o: Oracle, w: World, spec: TunnelSpec, plan: seq<Step>, i: nat, m: Machine)
    requires Ordered(plan) && i <= |plan| && AbsentFrom(spec, plan, m, 0)
    requires w.machine == Built(spec, m, plan[..i])
    ensures var (r, w') := Install(o, w, spec, plan, i);
            && (r.Ok? ==> w'.machine == Built(spec, m, plan))
            && (r.Err? && !r.error.RollbackFailed? ==> w'.machine == m)
    decreases |plan| - i
  {
    hide Effect, Present, InstallStep, UndoStep, Built;
    if i == |plan| {
      assert plan[..i] == plan;
    } else {
      var (r, w1) := InstallStep(o, w, spec, plan[i]);
      BuiltSnoc(spec, m, plan, i);
      BuiltLacksLater(spec, m, plan, i, i);
      InstallStepExact(o, w, spec, plan[i]);
      if r.Ok? {
        InstallRestores(o, w1, spec, plan, i + 1, m);
      } else {
        UndoStepExact(o, w1, spec, plan[i], Built(spec, m, plan[..i]));
        var (u, w2) := UndoStep(o, w1, spec, plan[i]);
        if u.Ok? {
          TeardownRestores(o, w2, spec, plan, i, m);
        }
      }
    }
  }

  // ----- and through the manager ---------------------------------------------------------------

  /** No trace of any session in the families the tunnel covers: nothing for the cleanup to remove. */
  predicate Unstained(spec: TunnelSpec, m: Machine) { FamilyClean(m.v4) && (spec.hasV6 ==> FamilyClean(m.v6)) }

  lemma UnstainedIsAbsent(spec: TunnelSpec, m: Machine)
    requires Unstained(spec, m)
    ensures AbsentFrom(spec, LinuxPlan(spec), m, 0)
  {
    var plan := LinuxPlan(spec);
    forall i | 0 <= i < |plan| ensures !Present(spec, m, plan[i]) {
      var s := m.Of(plan[i].family);
      CountPositive(s.rules, IsBackstopPriority);
      CountPositive(s.rules, IsPolicyLookup);
    }
  }

  lemma {:induction false} NothingToFlush(o: Oracle, w: World, commands: seq<Command>)
    requires forall c :: c in commands ==> IsFlush(c) && FamilyClean(w.machine.Of(c.family))
    ensures BestEffort(o, w, commands).1.machine == w.machine
    decreases |commands|
  {
    if commands != [] {
      var c := commands[0];
      assert c in commands;
      var s := w.machine.Of(c.family);
      CountPositive(s.rules, IsBackstopPriority);
      CountPositive(s.rules, IsPolicyLookup);
      RemoveAbsent(s.rules, IsBackstopPriority);
      RemoveAbsent(s.rules, IsPolicyLookup);
      NothingToFlush(o, Run(o, w, c).1, commands[1..]);
    }
  }

  lemma ManagedInstallRestores(o: Oracle, w: World, spec: TunnelSpec)
    requires Unstained(spec, w.machine)
    ensures var (r, w') := ManagedInstall(o, w, spec);
            && (r.Ok? ==> w'.machine == Built(spec, w.machine, LinuxPlan(spec)))
            && (r.Err? && !r.error.RollbackFailed? ==> w'.machine == w.machine)
  {
    var plan := LinuxPlan(spec);
    UnstainedIsAbsent(spec, w.machine);
    LinuxPlanOrdered(spec);
    NothingToFlush(o, w, PreInstallCleanup(spec));
    hide Install, BestEffort, Present, FamilyClean;
    var w1 := BestEffort(o, w, PreInstallCleanup(spec)).1;
    assert plan[..0] == [];
    InstallRestores(o, w1, spec, plan, 0, w.machine);
  }
}
