/**
  Re-assertion after something else deleted policy from a live session. Deletions happen between
  passes; nothing but the pass itself edits the machine while it runs.
 */
module Reassertion {
  import opened Kernel
  import opened Plan
  import opened PlanSafety
  import opened PlanReturns

  // ----- only what is missing, in rank order ---------------------------------------------------

  function Missing(spec: TunnelSpec, m: Machine, plan: seq<Step>, i: nat): seq<Step>
    requires i <= |plan|
    decreases |plan| - i
  {
    if i == |plan| then []
    else (if Present(spec, m, plan[i]) then [] else [plan[i]]) + Missing(spec, m, plan, i + 1)
  }

  function Applies(spec: TunnelSpec, steps: seq<Step>): seq<Command> {
    if steps == [] then [] else [ApplyCommand(spec, steps[0])] + Applies(spec, steps[1..])
  }

  function Kinds(steps: seq<Step>): seq<StepKind> {
    if steps == [] then [] else [steps[0].kind] + Kinds(steps[1..])
  }

  /** The mutating commands of a log, in order. */
  function Mutations(log: seq<Entry>): seq<Command> {
    if log == [] then []
    else Mutations(log[..|log| - 1]) +
         if IsProbe(log[|log| - 1].command) then [] else [log[|log| - 1].command]
  }

  lemma MutationsSnoc(log: seq<Entry>, e: Entry)
    ensures Mutations(log + [e]) == Mutations(log) + if IsProbe(e.command) then [] else [e.command]
  {
  }

  lemma {:induction false} MissingFrame(spec: TunnelSpec, m: Machine, m': Machine, plan: seq<Step>, i: nat)
    requires i <= |plan| && forall j :: i <= j < |plan| ==> Present(spec, m', plan[j]) == Present(spec, m, plan[j])
    ensures Missing(spec, m', plan, i) == Missing(spec, m, plan, i)
    decreases |plan| - i
  {
    hide Present;
    if i < |plan| {
      MissingFrame(spec, m, m', plan, i + 1);
    }
  }

  lemma InstallStepMutations(o: Oracle, w: World, spec: TunnelSpec, a: Step)
    ensures Mutations(InstallStep(o, w, spec, a).1.log) == Mutations(w.log) + [ApplyCommand(spec, a)]
  {
    hide Mutations, Effect;
    var w1 := Run(o, w, ApplyCommand(spec, a)).1;
    MutationRun(o, w, ApplyCommand(spec, a));
    EvaluateRun(o, w1, spec, a, true);
    MutationsSnoc(w.log, Entry(ApplyCommand(spec, a), w1.machine));
    MutationsSnoc(w1.log, Entry(ProbeOf(a), w1.machine));
  }

  /** One step of a pass: what it can change, what it issues, and how it is reported. */
  lemma ReassertStepRun(o: Oracle, w: World, spec: TunnelSpec, a: Step)
    ensures var (t, w') := ReassertStep(o, w, spec, a);
            && OnlyGains(spec, w, w', a)
            && (t != Failed ==> Present(spec, w'.machine, a))
            && (o(|w.log|).probe.ExitZero? ==>
                  && (t.Standing? <==> Present(spec, w.machine, a))
                  && Mutations(w'.log) == Mutations(w.log) + if Present(spec, w.machine, a) then []
                     else [ApplyCommand(spec, a)])
  {
    hide Present, InstallStep, Mutations;
    var (standing, w1) := Evaluate(o, w, spec, a, true);
    EvaluateRun(o, w, spec, a, true);
    MutationsSnoc(w.log, Entry(ProbeOf(a), w.machine));
    if standing.Err? {
      InstallStepRun(o, w1, spec, a);
      InstallStepMutations(o, w1, spec, a);
    }
  }

  /**
    With readable probes a pass issues exactly the apply commands of the steps that were missing when
    it started, in plan order, whatever those commands then do or report.
   */
  lemma {:induction false} ReassertAppliesExactlyMissing(
    o: Oracle, w: World, spec: TunnelSpec, plan: seq<Step>, i: nat, acc: Plan.Reassertion)
    requires Ordered(plan) && i <= |plan| && forall t :: o(t).probe.ExitZero?
    ensures var (out, w') := Reassert(o, w, spec, plan, i, acc);
            && Mutations(w'.log) == Mutations(w.log) + Applies(spec, Missing(spec, w.machine, plan, i))
            && (Missing(spec, w.machine, plan, i) == [] ==> out == acc)
    decreases |plan| - i
  {
    hide ReassertStep, Present, Mutations, ApplyCommand;
    if i < |plan| {
      var a := plan[i];
      var (t, w1) := ReassertStep(o, w, spec, a);
      ReassertStepRun(o, w, spec, a);
      forall j | i + 1 <= j < |plan| ensures Present(spec, w1.machine, plan[j]) == Present(spec, w.machine, plan[j]) {
        OrderedDistinct(plan, i, j);
      }
      MissingFrame(spec, w.machine, w1.machine, plan, i + 1);
      ReassertAppliesExactlyMissing(o, w1, spec, plan, i + 1, Tally(acc, a.kind, t));
      var rest := Missing(spec, w.machine, plan, i + 1);
      assert ([a] + rest)[1..] == rest;
      if Present(spec, w.machine, a) {
        assert Mutations(w1.log) == Mutations(w.log);
        assert Missing(spec, w.machine, plan, i) == rest;
      } else {
        assert Mutations(w1.log) == Mutations(w.log) + [ApplyCommand(spec, a)];
        assert Applies(spec, Missing(spec, w.machine, plan, i)) == [ApplyCommand(spec, a)] + Applies(spec, rest);
      }
    }
  }

  // ----- a pass never exposes ------------------------------------------------------------------

  /** `m'` has every step `m` has, and the same foreign rules around them. */
  ghost predicate Grows(spec: TunnelSpec, m: Machine, m': Machine) {
    && TidyFor(spec, m')
    && (forall s :: Present(spec, m, s) ==> Present(spec, m', s))
    && (forall f :: Bare(spec, m', f) == Bare(spec, m, f))
  }

  lemma {:induction false} OthersInsert(rules: seq<Rule>, r: Rule, addr: Addr)
    requires Ours(r, addr)
    ensures Others(Insert(rules, r, PriorityOf), addr) == Others(rules, addr)
  {
    if rules == [] || PriorityOf(r) < PriorityOf(rules[0]) {
      assert ([r] + rules)[1..] == rules;
    } else {
      OthersInsert(rules[1..], r, addr);
      assert ([rules[0]] + Insert(rules[1..], r, PriorityOf))[1..] == Insert(rules[1..], r, PriorityOf);
    }
  }

  lemma ApplyGrows(spec: TunnelSpec, m: Machine, a: Step)
    requires TidyFor(spec, m)
    ensures Grows(spec, m, Effect(m, ApplyCommand(spec, a)))
  {
    var m' := Effect(m, ApplyCommand(spec, a));
    TidyKept(spec, m, a);
    FrameAll(spec, m, a);
    forall f ensures Bare(spec, m', f) == Bare(spec, m, f) {
      if f == a.family && IsRuleStep(a.kind) {
        OthersInsert(m.Of(f).rules, RuleOf(spec, a), spec.AddrOf(f));
      }
    }
    forall s ensures Present(spec, m, s) ==> Present(spec, m', s) {
      assert s != a ==> Present(spec, m', s) == Present(spec, m, s);
    }
  }

  ghost predicate GrowsSince(spec: TunnelSpec, m: Machine, w: World, base: nat) {
    forall i :: base <= i < |w.log| ==> Grows(spec, m, w.log[i].machine)
  }

  lemma ReassertStepGrows(o: Oracle, w: World, spec: TunnelSpec, a: Step)
    requires TidyFor(spec, w.machine)
    ensures var w' := ReassertStep(o, w, spec, a).1;
            w.log <= w'.log && Grows(spec, w.machine, w'.machine) && GrowsSince(spec, w.machine, w', |w.log|)
  {
    ApplyGrows(spec, w.machine, a);
    assert Grows(spec, w.machine, w.machine);
    hide Grows, Present, Effect;
    var (standing, w1) := Evaluate(o, w, spec, a, true);
    EvaluateRun(o, w, spec, a, true);
    if standing.Err? {
      MutationRun(o, w1, ApplyCommand(spec, a));
      EvaluateRun(o, Run(o, w1, ApplyCommand(spec, a)).1, spec, a, true);
    }
  }

  lemma GrowsChain(spec: TunnelSpec, m: Machine, w1: World, w2: World, base: nat)
    requires w1.log <= w2.log && base <= |w1.log| && Grows(spec, m, w1.machine)
    requires GrowsSince(spec, m, w1, base) && GrowsSince(spec, w1.machine, w2, |w1.log|)
    requires Grows(spec, w1.machine, w2.machine)
    ensures GrowsSince(spec, m, w2, base) && Grows(spec, m, w2.machine)
  {
  }

  lemma {:induction false} ReassertGrows(
    o: Oracle, w: World, spec: TunnelSpec, plan: seq<Step>, i: nat, acc: Plan.Reassertion)
    requires i <= |plan| && TidyFor(spec, w.machine)
    ensures var w' := Reassert(o, w, spec, plan, i, acc).1;
            w.log <= w'.log && Grows(spec, w.machine, w'.machine) && GrowsSince(spec, w.machine, w', |w.log|)
    decreases |plan| - i
  {
    if i == |plan| {
      hide Present, Bare, TidyFor;
    } else {
      var (t, w1) := ReassertStep(o, w, spec, plan[i]);
      ReassertStepGrows(o, w, spec, plan[i]);
      assert TidyFor(spec, w1.machine);
      hide Grows, GrowsSince, ReassertStep, TidyFor;
      ReassertGrows(o, w1, spec, plan, i + 1, Tally(acc, plan[i].kind, t));
      GrowsChain(spec, w.machine, w1, Reassert(o, w1, spec, plan, i + 1, Tally(acc, plan[i].kind, t)).1, |w.log|);
    }
  }

  lemma GrowsNotMain(spec: TunnelSpec, m: Machine, m': Machine, f: Family)
    requires TidyFor(spec, m) && Covers(spec, f) && Grows(spec, m, m') && VerdictOf(spec, m, f) != Main
    ensures VerdictOf(spec, m', f) != Main
  {
    hide TidyFor, Present, Bare, VerdictOf;
    VerdictBySteps(spec, m, f);
    VerdictBySteps(spec, m', f);
  }

  /**
    From any surviving subset and under any runner, no command of a pass turns a kept-off-`main` address
    onto `main`.
   */
  lemma ReassertNeverExposes(o: Oracle, w: World, spec: TunnelSpec, plan: seq<Step>)
    requires TidyFor(spec, w.machine)
    ensures var w' := Reassert(o, w, spec, plan, 0, Plan.Reassertion([], [])).1;
            forall i, f :: |w.log| <= i < |w'.log| && Covers(spec, f) && VerdictOf(spec, w.machine, f) != Main
              ==> VerdictOf(spec, w'.log[i].machine, f) != Main
  {
    hide Reassert, Grows, TidyFor, VerdictOf;
    var w' := Reassert(o, w, spec, plan, 0, Plan.Reassertion([], [])).1;
    ReassertGrows(o, w, spec, plan, 0, Plan.Reassertion([], []));
    forall i, f | |w.log| <= i < |w'.log| && Covers(spec, f) && VerdictOf(spec, w.machine, f) != Main
      ensures VerdictOf(spec, w'.log[i].machine, f) != Main
    {
      GrowsNotMain(spec, w.machine, w'.log[i].machine, f);
    }
  }

  /** Removing any one step from a family's full policy, by anyone, still keeps the address off `main`. */
  lemma AnySingleDeletionIsCovered(spec: TunnelSpec, m: Machine, f: Family, gone: StepKind)
    requires TidyFor(spec, m) && Covers(spec, f) && forall k :: k != gone ==> Present(spec, m, Step(f, k))
    ensures VerdictOf(spec, m, f) == Refused || VerdictOf(spec, m, f) == Via(spec.device)
  {
    VerdictBySteps(spec, m, f);
    assert Backstop == gone || Present(spec, m, Step(f, Backstop));
    assert PolicyRuleStep == gone || Present(spec, m, Step(f, PolicyRuleStep));
    assert Floor == gone || Present(spec, m, Step(f, Floor));
  }

  // ----- restoration ---------------------------------------------------------------------------

  /** The plan only speaks of families the tunnel covers, as the Linux plan does. */
  ghost predicate WithinTunnel(spec: TunnelSpec, plan: seq<Step>) {
    forall i :: 0 <= i < |plan| ==> Covers(spec, plan[i].family)
  }

  lemma MissingApplyTakes(spec: TunnelSpec, m: Machine, a: Step)
    requires TidyFor(spec, m) && Covers(spec, a.family) && !Present(spec, m, a)
    ensures Present(spec, Effect(m, ApplyCommand(spec, a)), a)
  {
    var s := m.Of(a.family);
    if IsRuleStep(a.kind) {
      InsertMembers(s.rules, RuleOf(spec, a), PriorityOf);
    } else {
      InsertMembers(s.table, RouteOf(spec, a), MetricOf);
    }
  }

  lemma ReassertStepRestores(o: Oracle, w: World, spec: TunnelSpec, a: Step)
    requires Responsive(o) && TidyFor(spec, w.machine) && Covers(spec, a.family)
    ensures var (t, w') := ReassertStep(o, w, spec, a);
            && t == (if Present(spec, w.machine, a) then Standing else Restored)
            && Present(spec, w'.machine, a)
            && (Present(spec, w.machine, a) ==> w'.machine == w.machine)
  {
    if !Present(spec, w.machine, a) {
      MissingApplyTakes(spec, w.machine, a);
    }
    hide Present, Effect;
    var (standing, w1) := Evaluate(o, w, spec, a, true);
    EvaluateRun(o, w, spec, a, true);
    MutationRun(o, w1, ApplyCommand(spec, a));
    EvaluateRun(o, Run(o, w1, ApplyCommand(spec, a)).1, spec, a, true);
  }

  lemma ReassertStepAdvances(o: Oracle, w: World, spec: TunnelSpec, plan: seq<Step>, i: nat)
    requires Responsive(o) && Ordered(plan) && i < |plan| && TidyFor(spec, w.machine) && Covers(spec, plan[i].family)
    requires PresentTo(spec, plan, w.machine, i)
    ensures var w' := ReassertStep(o, w, spec, plan[i]).1;
            && TidyFor(spec, w'.machine) && PresentTo(spec, plan, w'.machine, i + 1)
            && Missing(spec, w'.machine, plan, i + 1) == Missing(spec, w.machine, plan, i + 1)
  {
    var w' := ReassertStep(o, w, spec, plan[i]).1;
    ReassertStepGrows(o, w, spec, plan[i]);
    assert TidyFor(spec, w'.machine);
    ReassertStepRestores(o, w, spec, plan[i]);
    ReassertStepRun(o, w, spec, plan[i]);
    hide ReassertStep, Present, TidyFor, Grows, GrowsSince, Mutations;
    forall j | 0 <= j < |plan| && j != i ensures Present(spec, w'.machine, plan[j]) ==
        Present(spec, w.machine, plan[j]) {
      OrderedDistinct(plan, i, j);
    }
    MissingFrame(spec, w.machine, w'.machine, plan, i + 1);
  }

  /** If the commands do what they say, a pass puts back every missing step, reports exactly those, and fails none. */
  lemma {:induction false} ReassertRestoresAll(
    o: Oracle, w: World, spec: TunnelSpec, plan: seq<Step>, i: nat, acc: Plan.Reassertion)
    requires Responsive(o) && Ordered(plan) && i <= |plan| && TidyFor(spec, w.machine) && WithinTunnel(spec, plan)
    requires PresentTo(spec, plan, w.machine, i)
    ensures var (out, w') := Reassert(o, w, spec, plan, i, acc);
            && PresentTo(spec, plan, w'.machine, |plan|) && TidyFor(spec, w'.machine)
            && out == acc.(restored := acc.restored + Kinds(Missing(spec, w.machine, plan, i)))
            && (Missing(spec, w.machine, plan, i) == [] ==> w'.machine == w.machine)
    decreases |plan| - i
  {
    hide ReassertStep, Present, TidyFor, PresentTo, Ordered, Responsive;
    if i < |plan| {
      var a := plan[i];
      var (t, w1) := ReassertStep(o, w, spec, a);
      ReassertStepRestores(o, w, spec, a);
      ReassertStepAdvances(o, w, spec, plan, i);
      ReassertRestoresAll(o, w1, spec, plan, i + 1, Tally(acc, a.kind, t));
      var rest := Missing(spec, w.machine, plan, i + 1);
      assert ([a] + rest)[1..] == rest;
      if Present(spec, w.machine, a) {
        assert Missing(spec, w.machine, plan, i) == rest;
      } else {
        assert Kinds(Missing(spec, w.machine, plan, i)) == [a.kind] + Kinds(rest);
        assert (acc.restored + [a.kind]) + Kinds(rest) == acc.restored + ([a.kind] + Kinds(rest));
      }
    }
  }

  /**
    Under any runner at all, a pass that reports no failure leaves every step standing: a step is counted
    as standing or restored only when it was read back.
   */
  lemma {:induction false} NoFailureMeansAllStand(
    o: Oracle, w: World, spec: TunnelSpec, plan: seq<Step>, i: nat, acc: Plan.Reassertion)
    requires Ordered(plan) && i <= |plan| && PresentTo(spec, plan, w.machine, i)
    ensures var (out, w') := Reassert(o, w, spec, plan, i, acc);
            && acc.failed <= out.failed
            && (out.failed == acc.failed ==> PresentTo(spec, plan, w'.machine, |plan|))
    decreases |plan| - i
  {
    hide ReassertStep, Present, Mutations, Ordered;
    if i < |plan| {
      var (t, w1) := ReassertStep(o, w, spec, plan[i]);
      ReassertStepRun(o, w, spec, plan[i]);
      forall j | 0 <= j < i ensures Present(spec, w1.machine, plan[j]) {
        OrderedDistinct(plan, i, j);
      }
      if t.Failed? {
        FailuresOnlyGrow(o, w1, spec, plan, i + 1, Tally(acc, plan[i].kind, t));
      } else {
        NoFailureMeansAllStand(o, w1, spec, plan, i + 1, Tally(acc, plan[i].kind, t));
      }
    }
  }

  lemma {:induction false} FailuresOnlyGrow(
    o: Oracle, w: World, spec: TunnelSpec, plan: seq<Step>, i: nat, acc: Plan.Reassertion)
    requires i <= |plan|
    ensures acc.failed <= Reassert(o, w, spec, plan, i, acc).0.failed
    decreases |plan| - i
  {
    hide ReassertStep;
    if i < |plan| {
      var (t, w1) := ReassertStep(o, w, spec, plan[i]);
      FailuresOnlyGrow(o, w1, spec, plan, i + 1, Tally(acc, plan[i].kind, t));
    }
  }

  lemma {:induction false} NothingMissing(spec: TunnelSpec, m: Machine, plan: seq<Step>, i: nat)
    requires i <= |plan| && PresentTo(spec, plan, m, |plan|)
    ensures Missing(spec, m, plan, i) == []
    decreases |plan| - i
  {
    if i < |plan| {
      NothingMissing(spec, m, plan, i + 1);
    }
  }

  /** After a successful pass the next one only probes: quiet, no command issued, nothing changed. */
  lemma SecondPassIsQuiet(o: Oracle, w: World, spec: TunnelSpec, plan: seq<Step>)
    requires Responsive(o) && Ordered(plan) && TidyFor(spec, w.machine) && WithinTunnel(spec, plan)
    ensures var none := Plan.Reassertion([], []);
            var w1 := Reassert(o, w, spec, plan, 0, none).1;
            var (out, w2) := Reassert(o, w1, spec, plan, 0, none);
            out.IsQuiet() && w2.machine == w1.machine && Mutations(w2.log) == Mutations(w1.log)
  {
    hide Reassert, TidyFor, Present, Mutations;
    var none := Plan.Reassertion([], []);
    var w1 := Reassert(o, w, spec, plan, 0, none).1;
    ReassertRestoresAll(o, w, spec, plan, 0, none);
    NothingMissing(spec, w1.machine, plan, 0);
    ReassertRestoresAll(o, w1, spec, plan, 0, none);
    ReassertAppliesExactlyMissing(o, w1, spec, plan, 0, none);
  }

  // ----- the unreadable probe ------------------------------------------------------------------

  /**
    "Every step is checked before it is touched" does not by itself prevent duplicates: a standing
    rule gains a copy exactly when its probe could not be read and the add then took effect.
   */
  lemma DuplicateCondition(o: Oracle, w: World, spec: TunnelSpec, a: Step)
    requires IsRuleStep(a.kind) && Present(spec, w.machine, a)
    ensures var w' := ReassertStep(o, w, spec, a).1;
            Copies(spec, w'.machine, a) == Copies(spec, w.machine, a) +
              if !o(|w.log|).probe.ExitZero? && o(|w.log| + 1).effect then 1 else 0
  {
    var (standing, w1) := Evaluate(o, w, spec, a, true);
    EvaluateRun(o, w, spec, a, true);
    ApplyCopies(spec, w.machine, a, a);
    hide Present, Effect, Copies;
    MutationRun(o, w1, ApplyCommand(spec, a));
    EvaluateRun(o, Run(o, w1, ApplyCommand(spec, a)).1, spec, a, true);
  }

  lemma ReassertStepCopies(o: Oracle, w: World, spec: TunnelSpec, a: Step, s: Step)
    requires o(|w.log|).probe.ExitZero?
    ensures var w' := ReassertStep(o, w, spec, a).1;
            var n := Copies(spec, w.machine, s);
            n <= Copies(spec, w'.machine, s) <= if n == 0 then 1 else n
  {
    var (standing, w1) := Evaluate(o, w, spec, a, true);
    EvaluateRun(o, w, spec, a, true);
    PresentByCopies(spec, w.machine, a);
    ApplyCopies(spec, w.machine, a, s);
    hide Present, Effect, Copies;
    MutationRun(o, w1, ApplyCommand(spec, a));
    EvaluateRun(o, Run(o, w1, ApplyCommand(spec, a)).1, spec, a, true);
  }

  /** With readable probes no pass, under any runner, leaves a step with more copies than it had, beyond one. */
  lemma {:induction false} ReassertNeverDuplicates(
    o: Oracle, w: World, spec: TunnelSpec, plan: seq<Step>, i: nat, acc: Plan.Reassertion, s: Step)
    requires i <= |plan| && forall t :: o(t).probe.ExitZero?
    ensures var w' := Reassert(o, w, spec, plan, i, acc).1;
            var n := Copies(spec, w.machine, s);
            n <= Copies(spec, w'.machine, s) <= if n == 0 then 1 else n
    decreases |plan| - i
  {
    hide ReassertStep, Copies;
    if i < |plan| {
      var (t, w1) := ReassertStep(o, w, spec, plan[i]);
      ReassertStepCopies(o, w, spec, plan[i], s);
      ReassertNeverDuplicates(o, w1, spec, plan, i + 1, Tally(acc, plan[i].kind, t), s);
    }
  }

  /** And a duplicate costs the session its teardown: even a fully responsive runner cannot remove it. */
  lemma DuplicateBlocksTeardown(o: Oracle, o': Oracle, w: World, spec: TunnelSpec, plan: seq<Step>, i: nat)
    requires Ordered(plan) && i < |plan| && IsRuleStep(plan[i].kind) && Present(spec, w.machine, plan[i])
    requires !o(|w.log|).probe.ExitZero? && o(|w.log| + 1).effect && Responsive(o')
    ensures Teardown(o', ReassertStep(o, w, spec, plan[i]).1, spec, plan, |plan|).0.Err?
  {
    var w' := ReassertStep(o, w, spec, plan[i]).1;
    DuplicateCondition(o, w, spec, plan[i]);
    PresentByCopies(spec, w.machine, plan[i]);
    hide ReassertStep, Copies, Present, Teardown;
    TeardownSucceedsIff(o', w', spec, plan, |plan|);
  }
}
