/**
  What installing and tearing down tunnel policy guarantees over every run of every runner: fail-closed at
  each instant, and return values that mean what they say.
 */
module PlanSafety {
  import opened Kernel
  import opened Plan

  // ----- Plan::new -----------------------------------------------------------------------------

  lemma {:induction false} AscendingPairs(r: seq<nat>, i: nat, j: nat)
    requires Ascending(r) && i < j < |r|
    ensures r[i] < r[j]
  {
    if i + 1 < j {
      AscendingPairs(r, i, j - 1);
      assert r[j - 1] < r[j - 1 + 1];
    }
  }

  lemma {:induction false} RanksMembers(steps: seq<Step>, f: Family)
    ensures forall s :: s in steps && s.family == f ==> Rank(s.kind) in Ranks(steps, f)
    ensures forall x :: x in Ranks(steps, f) ==> exists s :: s in steps && s.family == f && Rank(s.kind) == x
  {
    if steps != [] {
      RanksMembers(steps[1..], f);
      assert steps == [steps[0]] + steps[1..];
    }
  }

  lemma {:induction false} AscendingCons(a: nat, r: seq<nat>)
    ensures Ascending([a] + r) <==> Ascending(r) && forall x :: x in r ==> a < x
  {
    var s := [a] + r;
    if Ascending(s) {
      forall i | 0 <= i < |r| - 1 ensures r[i] < r[i + 1] {
        assert s[i + 1] < s[i + 2];
      }
      forall x | x in r ensures a < x {
        var j :| 0 <= j < |r| && r[j] == x;
        AscendingPairs(s, 0, j + 1);
      }
    }
    if Ascending(r) && forall x :: x in r ==> a < x {
      forall i | 0 <= i < |s| - 1 ensures s[i] < s[i + 1] {
        assert s[i + 1] == r[i] && r[i] in r;
        assert i > 0 ==> r[i - 1] < r[i - 1 + 1] && s[i] == r[i - 1];
      }
    }
  }

  ghost predicate FamilyOrdered(steps: seq<Step>, f: Family) {
    forall i, j :: 0 <= i < j < |steps| && steps[i].family == f && steps[j].family == f
      ==> Rank(steps[i].kind) < Rank(steps[j].kind)
  }

  lemma FamilyOrderedCons(steps: seq<Step>, f: Family)
    requires steps != []
    ensures FamilyOrdered(steps, f) <==>
            && FamilyOrdered(steps[1..], f)
            && (steps[0].family == f ==> forall s :: s in steps[1..] && s.family == f ==>
               Rank(steps[0].kind) < Rank(s.kind))
  {
  }

  lemma {:induction false} OneFamilyOrdered(steps: seq<Step>, f: Family)
    ensures Ascending(Ranks(steps, f)) <==> FamilyOrdered(steps, f)
  {
    hide Rank, Ascending, FamilyOrdered;
    if steps != [] {
      var tail := steps[1..];
      OneFamilyOrdered(tail, f);
      FamilyOrderedCons(steps, f);
      RanksMembers(tail, f);
      AscendingCons(Rank(steps[0].kind), Ranks(tail, f));
      assert steps[0].family != f ==> Ranks(steps, f) == Ranks(tail, f);
    } else {
      EmptyIsOrdered(f);
    }
  }

  lemma EmptyIsOrdered(f: Family)
    ensures Ascending(Ranks([], f)) && FamilyOrdered([], f)
  {
  }

  /** Comparing neighbours is enough: `Plan::new` accepts exactly the plans ordered at any distance. */
  lemma NewPlanAcceptsOrdered(steps: seq<Step>)
    ensures NewPlan(steps).Ok? <==> Ordered(steps)
  {
    OneFamilyOrdered(steps, V4);
    OneFamilyOrdered(steps, V6);
  }

  lemma LinuxPlanOrdered(spec: TunnelSpec)
    ensures Ordered(LinuxPlan(spec)) && NewPlan(LinuxPlan(spec)).Ok?
  {
    NewPlanAcceptsOrdered(LinuxPlan(spec));
  }

  // ----- one command touches one step ----------------------------------------------------------

  lemma PresentByCopies(spec: TunnelSpec, m: Machine, s: Step)
    ensures Present(spec, m, s) <==> Copies(spec, m, s) > 0
  {
    if IsRuleStep(s.kind) {
      CountPositive(m.Of(s.family).rules, Is(RuleOf(spec, s)));
    } else {
      CountPositive(m.Of(s.family).table, Is(RouteOf(spec, s)));
    }
  }

  lemma ApplyCopies(spec: TunnelSpec, m: Machine, a: Step, b: Step)
    ensures var m' := Effect(m, ApplyCommand(spec, a));
            Copies(spec, m', b) == Copies(spec, m, b) +
              if a == b && (IsRuleStep(a.kind) || !MetricTaken(m.Of(a.family).table, RouteOf(spec, a).metric))
                  then 1 else 0
  {
    var s := m.Of(a.family);
    if a.family == b.family && IsRuleStep(a.kind) && IsRuleStep(b.kind) {
      InsertCount(s.rules, RuleOf(spec, a), PriorityOf, Is(RuleOf(spec, b)));
    }
    if a.family == b.family && !IsRuleStep(a.kind) && !IsRuleStep(b.kind) {
      InsertCount(s.table, RouteOf(spec, a), MetricOf, Is(RouteOf(spec, b)));
    }
  }

  lemma UndoCopies(spec: TunnelSpec, m: Machine, a: Step, b: Step)
    ensures var m' := Effect(m, UndoCommand(spec, a));
            Copies(spec, m', b) ==
              if a == b && Copies(spec, m, a) > 0 then Copies(spec, m, b) - 1 else Copies(spec, m, b)
  {
    PresentByCopies(spec, m, a);
    var s := m.Of(a.family);
    if a.family == b.family && IsRuleStep(a.kind) && IsRuleStep(b.kind) {
      RemoveCount(s.rules, Is(RuleOf(spec, a)), Is(RuleOf(spec, b)));
    }
    if a.family == b.family && !IsRuleStep(a.kind) && !IsRuleStep(b.kind) {
      RemoveCount(s.table, Is(RouteOf(spec, a)), Is(RouteOf(spec, b)));
    }
  }

  /** Applying or undoing `a` leaves every other step as it was. */
  lemma Frame(spec: TunnelSpec, m: Machine, a: Step, b: Step)
    ensures a != b ==> Present(spec, Effect(m, ApplyCommand(spec, a)), b) == Present(spec, m, b)
    ensures a != b ==> Present(spec, Effect(m, UndoCommand(spec, a)), b) == Present(spec, m, b)
    ensures Present(spec, m, a) ==> Present(spec, Effect(m, ApplyCommand(spec, a)), a)
    ensures !Present(spec, m, a) ==> !Present(spec, Effect(m, UndoCommand(spec, a)), a)
  {
    ApplyCopies(spec, m, a, b);
    UndoCopies(spec, m, a, b);
    ApplyCopies(spec, m, a, a);
    UndoCopies(spec, m, a, a);
    PresentByCopies(spec, m, a);
    PresentByCopies(spec, m, b);
    PresentByCopies(spec, Effect(m, ApplyCommand(spec, a)), a);
    PresentByCopies(spec, Effect(m, ApplyCommand(spec, a)), b);
    PresentByCopies(spec, Effect(m, UndoCommand(spec, a)), a);
    PresentByCopies(spec, Effect(m, UndoCommand(spec, a)), b);
  }

  // ----- what one step of a run can change -----------------------------------------------------

  ghost predicate SameExcept(spec: TunnelSpec, m: Machine, m': Machine, a: Step) {
    forall s :: s != a ==> Present(spec, m', s) == Present(spec, m, s)
  }

  ghost predicate Gains(spec: TunnelSpec, m: Machine, m': Machine, a: Step) {
    SameExcept(spec, m, m', a) && (Present(spec, m, a) ==> Present(spec, m', a))
  }

  ghost predicate Loses(spec: TunnelSpec, m: Machine, m': Machine, a: Step) {
    SameExcept(spec, m, m', a) && (Present(spec, m', a) ==> Present(spec, m, a))
  }

  /** Every machine logged since `w` differs from `w` at most in `a`, and only by gaining it. */
  ghost predicate OnlyGains(spec: TunnelSpec, w: World, w': World, a: Step) {
    && w.log <= w'.log
    && Gains(spec, w.machine, w'.machine, a)
    && (forall i :: |w.log| <= i < |w'.log| ==> Gains(spec, w.machine, w'.log[i].machine, a))
  }

  ghost predicate OnlyLoses(spec: TunnelSpec, w: World, w': World, a: Step) {
    && w.log <= w'.log
    && Loses(spec, w.machine, w'.machine, a)
    && (forall i :: |w.log| <= i < |w'.log| ==> Loses(spec, w.machine, w'.log[i].machine, a))
  }

  lemma FrameAll(spec: TunnelSpec, m: Machine, a: Step)
    ensures Gains(spec, m, Effect(m, ApplyCommand(spec, a)), a)
    ensures Loses(spec, m, Effect(m, UndoCommand(spec, a)), a)
  {
    forall s ensures s != a ==>
      && Present(spec, Effect(m, ApplyCommand(spec, a)), s) == Present(spec, m, s)
      && Present(spec, Effect(m, UndoCommand(spec, a)), s) == Present(spec, m, s)
    {
      Frame(spec, m, a, s);
    }
    Frame(spec, m, a, a);
  }

  /** A read-back changes nothing, and says `Ok` only when the step is as wanted. */
  lemma EvaluateRun(o: Oracle, w: World, spec: TunnelSpec, s: Step, want: bool)
    ensures var (r, w') := Evaluate(o, w, spec, s, want);
            && w'.machine == w.machine && w'.log == w.log + [Entry(ProbeOf(s), w.machine)]
            && (r.Ok? <==> o(|w.log|).probe.ExitZero? && Present(spec, w.machine, s) == want)
  {
  }

  lemma MutationRun(o: Oracle, w: World, c: Command)
    requires !IsProbe(c)
    ensures var (r, w') := Run(o, w, c);
            && w'.machine == (if o(|w.log|).effect then Effect(w.machine, c) else w.machine)
            && w'.log == w.log + [Entry(c, w'.machine)] && r == o(|w.log|).report
  {
  }

  lemma InstallStepRun(o: Oracle, w: World, spec: TunnelSpec, a: Step)
    ensures var (r, w') := InstallStep(o, w, spec, a);
            OnlyGains(spec, w, w', a) && (r.Ok? ==> Present(spec, w'.machine, a))
  {
    FrameAll(spec, w.machine, a);
    var (report, w1) := Run(o, w, ApplyCommand(spec, a));
    MutationRun(o, w, ApplyCommand(spec, a));
    assert Gains(spec, w.machine, w1.machine, a);
    EvaluateRun(o, w1, spec, a, true);
  }

  lemma UndoStepRun(o: Oracle, w: World, spec: TunnelSpec, a: Step)
    ensures var (r, w') := UndoStep(o, w, spec, a);
            OnlyLoses(spec, w, w', a) && (r.Ok? ==> !Present(spec, w'.machine, a))
  {
    FrameAll(spec, w.machine, a);
    var (report, w1) := Run(o, w, UndoCommand(spec, a));
    MutationRun(o, w, UndoCommand(spec, a));
    assert Loses(spec, w.machine, w1.machine, a);
    EvaluateRun(o, w1, spec, a, false);
  }

  // ----- fail-closed at every instant ----------------------------------------------------------

  /** The steps present form a prefix of each family's plan. */
  ghost predicate DownClosed(spec: TunnelSpec, plan: seq<Step>, m: Machine) {
    forall i, j :: 0 <= i < j < |plan| && plan[i].family == plan[j].family && Present(spec, m, plan[j])
      ==> Present(spec, m, plan[i])
  }

  ghost predicate ClosedSince(spec: TunnelSpec, plan: seq<Step>, w: World, base: nat) {
    forall i :: base <= i < |w.log| ==> DownClosed(spec, plan, w.log[i].machine)
  }

  ghost predicate PresentTo(spec: TunnelSpec, plan: seq<Step>, m: Machine, n: nat) {
    forall i :: 0 <= i < n && i < |plan| ==> Present(spec, m, plan[i])
  }

  ghost predicate AbsentFrom(spec: TunnelSpec, plan: seq<Step>, m: Machine, n: nat) {
    forall i :: n <= i < |plan| ==> !Present(spec, m, plan[i])
  }

  lemma OrderedDistinct(plan: seq<Step>, i: nat, j: nat)
    requires Ordered(plan) && i < |plan| && j < |plan| && i != j
    ensures plan[i] != plan[j]
  {
  }

  /** Losing the topmost step, or gaining the next one on a full prefix, keeps the prefix shape. */
  lemma TopStepKeepsClosed(spec: TunnelSpec, plan: seq<Step>, m: Machine, m': Machine, n: nat)
    requires Ordered(plan) && n < |plan| && DownClosed(spec, plan, m) && AbsentFrom(spec, plan, m, n + 1)
    requires SameExcept(spec, m, m', plan[n])
    requires (Present(spec, m', plan[n]) ==> Present(spec, m, plan[n])) || PresentTo(spec, plan, m, n)
    ensures DownClosed(spec, plan, m') && AbsentFrom(spec, plan, m', n + 1)
    ensures PresentTo(spec, plan, m, n) ==> PresentTo(spec, plan, m', n)
  {
  }

  lemma ClosedChain(spec: TunnelSpec, plan: seq<Step>, w: World, w1: World, w2: World)
    requires w.log <= w1.log <= w2.log
    requires ClosedSince(spec, plan, w1, |w.log|) && ClosedSince(spec, plan, w2, |w1.log|)
    ensures w.log <= w2.log && ClosedSince(spec, plan, w2, |w.log|)
  {
  }

  lemma UndoStepClosed(o: Oracle, w: World, spec: TunnelSpec, plan: seq<Step>, n: nat)
    requires Ordered(plan) && n < |plan|
    requires DownClosed(spec, plan, w.machine) && AbsentFrom(spec, plan, w.machine, n + 1)
    ensures var (r, w') := UndoStep(o, w, spec, plan[n]);
            && w.log <= w'.log
            && ClosedSince(spec, plan, w', |w.log|) && DownClosed(spec, plan, w'.machine)
            && AbsentFrom(spec, plan, w'.machine, if r.Ok? then n else n + 1)
  {
    var (r, w') := UndoStep(o, w, spec, plan[n]);
    UndoStepRun(o, w, spec, plan[n]);
    forall i | |w.log| <= i < |w'.log| ensures DownClosed(spec, plan, w'.log[i].machine) {
      TopStepKeepsClosed(spec, plan, w.machine, w'.log[i].machine, n);
    }
    TopStepKeepsClosed(spec, plan, w.machine, w'.machine, n);
  }

  lemma InstallStepClosed(o: Oracle, w: World, spec: TunnelSpec, plan: seq<Step>, i: nat)
    requires Ordered(plan) && i < |plan|
    requires PresentTo(spec, plan, w.machine, i) && AbsentFrom(spec, plan, w.machine, i)
    ensures var (r, w') := InstallStep(o, w, spec, plan[i]);
            && w.log <= w'.log
            && ClosedSince(spec, plan, w', |w.log|) && DownClosed(spec, plan, w'.machine)
            && PresentTo(spec, plan, w'.machine, if r.Ok? then i + 1 else i)
            && AbsentFrom(spec, plan, w'.machine, i + 1)
  {
    var (r, w') := InstallStep(o, w, spec, plan[i]);
    InstallStepRun(o, w, spec, plan[i]);
    forall j | |w.log| <= j < |w'.log| ensures DownClosed(spec, plan, w'.log[j].machine) {
      TopStepKeepsClosed(spec, plan, w.machine, w'.log[j].machine, i);
    }
    TopStepKeepsClosed(spec, plan, w.machine, w'.machine, i);
  }

  /** A teardown started on a prefix keeps it a prefix after every command; `Ok` means nothing is left. */
  lemma {:induction false} TeardownClosed(o: Oracle, w: World, spec: TunnelSpec, plan: seq<Step>, n: nat)
    requires Ordered(plan) && n <= |plan|
    requires DownClosed(spec, plan, w.machine) && AbsentFrom(spec, plan, w.machine, n)
    ensures var (r, w') := Teardown(o, w, spec, plan, n);
            && w.log <= w'.log
            && ClosedSince(spec, plan, w', |w.log|) && DownClosed(spec, plan, w'.machine)
            && (r.Ok? ==> AbsentFrom(spec, plan, w'.machine, 0))
    decreases n
  {
    hide UndoStep, Present;
    if n > 0 {
      var (r, w1) := UndoStep(o, w, spec, plan[n - 1]);
      UndoStepClosed(o, w, spec, plan, n - 1);
      if r.Ok? {
        TeardownClosed(o, w1, spec, plan, n - 1);
        ClosedChain(spec, plan, w, w1, Teardown(o, w1, spec, plan, n - 1).1);
      }
    }
  }

  /**
    An install started from nothing keeps each family's steps a prefix of the plan after every
    command, rollback included. `Ok` means every step stands; any error but `RollbackFailed` means
    none does.
   */
  lemma {:induction false} InstallClosed(o: Oracle, w: World, spec: TunnelSpec, plan: seq<Step>, i: nat)
    requires Ordered(plan) && i <= |plan|
    requires PresentTo(spec, plan, w.machine, i) && AbsentFrom(spec, plan, w.machine, i)
    ensures var (r, w') := Install(o, w, spec, plan, i);
            && w.log <= w'.log
            && ClosedSince(spec, plan, w', |w.log|) && DownClosed(spec, plan, w'.machine)
            && (r.Ok? ==> PresentTo(spec, plan, w'.machine, |plan|))
            && (r.Err? && !r.error.RollbackFailed? ==> AbsentFrom(spec, plan, w'.machine, 0))
    decreases |plan| - i
  {
    hide InstallStep, Teardown, Present;
    if i < |plan| {
      var (r, w1) := InstallStep(o, w, spec, plan[i]);
      InstallStepClosed(o, w, spec, plan, i);
      if r.Ok? {
        InstallClosed(o, w1, spec, plan, i + 1);
        ClosedChain(spec, plan, w, w1, Install(o, w1, spec, plan, i + 1).1);
      } else {
        TeardownClosed(o, w1, spec, plan, i + 1);
        ClosedChain(spec, plan, w, w1, Teardown(o, w1, spec, plan, i + 1).1);
      }
    }
  }

  // ----- from presence to the routing verdict --------------------------------------------------

  predicate Covers(spec: TunnelSpec, f: Family) { f.V4? || spec.hasV6 }

  /** Every family the tunnel covers is one our policy can govern; the other is none of its business. */
  ghost predicate TidyFor(spec: TunnelSpec, m: Machine) {
    Tidy(m.v4, spec.v4, spec.device) && (spec.hasV6 ==> Tidy(m.v6, spec.v6, spec.device))
  }

  function VerdictOf(spec: TunnelSpec, m: Machine, f: Family): Verdict {
    LookupFrom(m.Of(f), spec.AddrOf(f))
  }

  function Bare(spec: TunnelSpec, m: Machine, f: Family): Verdict {
    Unprotected(m.Of(f), spec.AddrOf(f))
  }

  /** The lookup in step vocabulary. */
  lemma VerdictBySteps(spec: TunnelSpec, m: Machine, f: Family)
    requires TidyFor(spec, m) && Covers(spec, f)
    ensures VerdictOf(spec, m, f) ==
            if Present(spec, m, Step(f, PolicyRuleStep)) && Present(spec, m, Step(f, TunnelRouteStep))
                then Via(spec.device)
            else if Present(spec, m, Step(f, PolicyRuleStep)) && Present(spec, m, Step(f, Floor)) then Refused
            else if Present(spec, m, Step(f, Backstop)) then Refused
            else Bare(spec, m, f)
  {
    LookupByPresence(m.Of(f), spec.AddrOf(f), spec.device);
  }

  /** Once any step of a family stands, its tun address reaches the tunnel or is refused, never `main`. */
  ghost predicate Protected(spec: TunnelSpec, m: Machine, f: Family) {
    (exists k :: Present(spec, m, Step(f, k))) ==>
      VerdictOf(spec, m, f) == if Present(spec, m, Step(f, TunnelRouteStep)) then Via(spec.device) else Refused
  }

  lemma PlanIndex(spec: TunnelSpec, f: Family) returns (b: nat)
    requires Covers(spec, f)
    ensures b + 4 <= |LinuxPlan(spec)| && LinuxPlan(spec)[b..b + 4] == FamilySteps(f)
  {
    b := if f.V4? then 0 else 4;
  }

  lemma ClosedProtects(spec: TunnelSpec, m: Machine, f: Family)
    requires TidyFor(spec, m) && Covers(spec, f) && DownClosed(spec, LinuxPlan(spec), m)
    ensures Protected(spec, m, f)
  {
    var plan := LinuxPlan(spec);
    var b := PlanIndex(spec, f);
    assert plan[b] == plan[b..b + 4][0] && plan[b + 1] == plan[b..b + 4][1]
        && plan[b + 2] == plan[b..b + 4][2] && plan[b + 3] == plan[b..b + 4][3];
    VerdictBySteps(spec, m, f);
    if k :| Present(spec, m, Step(f, k)) {
      assert Present(spec, m, plan[b + Rank(k)]);
    }
  }

  lemma TidyKept(spec: TunnelSpec, m: Machine, a: Step)
    requires TidyFor(spec, m)
    ensures TidyFor(spec, Effect(m, ApplyCommand(spec, a)))
    ensures TidyFor(spec, Effect(m, UndoCommand(spec, a)))
  {
    hide Tidy;
    var s, addr := m.Of(a.family), spec.AddrOf(a.family);
    if !Covers(spec, a.family) {
    } else if IsRuleStep(a.kind) {
      TidyRules(s, addr, spec.device, RuleOf(spec, a), Is(RuleOf(spec, a)));
    } else {
      TidyRoutes(s, addr, spec.device, RouteOf(spec, a), Is(RouteOf(spec, a)));
    }
  }

  ghost predicate TidySince(spec: TunnelSpec, w: World, base: nat) {
    forall i :: base <= i < |w.log| ==> TidyFor(spec, w.log[i].machine)
  }

  lemma StepsKeepTidy(o: Oracle, w: World, spec: TunnelSpec, a: Step)
    requires TidyFor(spec, w.machine)
    ensures var w' := InstallStep(o, w, spec, a).1;
            w.log <= w'.log && TidyFor(spec, w'.machine) && TidySince(spec, w', |w.log|)
    ensures var w' := UndoStep(o, w, spec, a).1;
            w.log <= w'.log && TidyFor(spec, w'.machine) && TidySince(spec, w', |w.log|)
  {
    hide TidyFor;
    TidyKept(spec, w.machine, a);
    MutationRun(o, w, ApplyCommand(spec, a));
    EvaluateRun(o, Run(o, w, ApplyCommand(spec, a)).1, spec, a, true);
    MutationRun(o, w, UndoCommand(spec, a));
    EvaluateRun(o, Run(o, w, UndoCommand(spec, a)).1, spec, a, false);
  }

  lemma {:induction false} TeardownTidy(o: Oracle, w: World, spec: TunnelSpec, plan: seq<Step>, n: nat)
    requires n <= |plan| && TidyFor(spec, w.machine)
    ensures var w' := Teardown(o, w, spec, plan, n).1;
            w.log <= w'.log && TidyFor(spec, w'.machine) && TidySince(spec, w', |w.log|)
    decreases n
  {
    hide UndoStep, TidyFor;
    if n > 0 {
      var (r, w1) := UndoStep(o, w, spec, plan[n - 1]);
      StepsKeepTidy(o, w, spec, plan[n - 1]);
      if r.Ok? {
        TeardownTidy(o, w1, spec, plan, n - 1);
      }
    }
  }

  lemma {:induction false} InstallTidy(o: Oracle, w: World, spec: TunnelSpec, plan: seq<Step>, i: nat)
    requires i <= |plan| && TidyFor(spec, w.machine)
    ensures var w' := Install(o, w, spec, plan, i).1;
            w.log <= w'.log && TidyFor(spec, w'.machine) && TidySince(spec, w', |w.log|)
    decreases |plan| - i
  {
    hide InstallStep, Teardown, TidyFor;
    if i < |plan| {
      var (r, w1) := InstallStep(o, w, spec, plan[i]);
      StepsKeepTidy(o, w, spec, plan[i]);
      if r.Ok? {
        InstallTidy(o, w1, spec, plan, i + 1);
      } else {
        TeardownTidy(o, w1, spec, plan, i + 1);
      }
    }
  }

  /** Every machine logged since `base` protects every family the tunnel covers. */
  ghost predicate ProtectedSince(spec: TunnelSpec, w: World, base: nat) {
    forall i, f :: base <= i < |w.log| && Covers(spec, f) ==> Protected(spec, w.log[i].machine, f)
  }

  lemma ProtectedFromClosed(spec: TunnelSpec, w: World, base: nat)
    requires ClosedSince(spec, LinuxPlan(spec), w, base) && TidySince(spec, w, base)
    ensures ProtectedSince(spec, w, base)
  {
    forall i, f | base <= i < |w.log| && Covers(spec, f) ensures Protected(spec, w.log[i].machine, f) {
      ClosedProtects(spec, w.log[i].machine, f);
    }
  }

  ghost predicate Clean(spec: TunnelSpec, m: Machine) {
    TidyFor(spec, m) && AbsentFrom(spec, LinuxPlan(spec), m, 0)
  }

  /**
    Fail-closed installation: whatever the runner does, after every single command of the install and
    of any rollback, no family with a step standing looks its tun address up in `main`.
   */
  lemma InstallFailClosed(o: Oracle, w: World, spec: TunnelSpec)
    requires Clean(spec, w.machine)
    ensures var (r, w') := Install(o, w, spec, LinuxPlan(spec), 0);
            && ProtectedSince(spec, w', |w.log|)
            && (r.Ok? ==> forall f :: Covers(spec, f) ==> VerdictOf(spec, w'.machine, f) == Via(spec.device))
            && (r.Err? && !r.error.RollbackFailed? ==> Clean(spec, w'.machine))
            && (forall f :: Covers(spec, f) ==> Protected(spec, w'.machine, f))
  {
    hide Install, TidyFor, Present;
    var plan := LinuxPlan(spec);
    LinuxPlanOrdered(spec);
    var (r, w') := Install(o, w, spec, plan, 0);
    InstallClosed(o, w, spec, plan, 0);
    InstallTidy(o, w, spec, plan, 0);
    ProtectedFromClosed(spec, w', |w.log|);
    forall f | Covers(spec, f)
      ensures Protected(spec, w'.machine, f)
      ensures r.Ok? ==> VerdictOf(spec, w'.machine, f) == Via(spec.device)
    {
      ClosedProtects(spec, w'.machine, f);
      var b := PlanIndex(spec, f);
      assert plan[b + 3] == plan[b..b + 4][3];
    }
  }

  /** Fail-closed teardown, from any prefix of the policy: the same at every instant, and `Ok` means clean. */
  lemma TeardownFailClosed(o: Oracle, w: World, spec: TunnelSpec)
    requires TidyFor(spec, w.machine) && DownClosed(spec, LinuxPlan(spec), w.machine)
    ensures var plan := LinuxPlan(spec); var (r, w') := Teardown(o, w, spec, plan, |plan|);
            && ProtectedSince(spec, w', |w.log|)
            && (r.Ok? ==> Clean(spec, w'.machine))
            && (forall f :: Covers(spec, f) ==> Protected(spec, w'.machine, f))
  {
    hide Teardown, TidyFor, Present;
    var plan := LinuxPlan(spec);
    LinuxPlanOrdered(spec);
    var (r, w') := Teardown(o, w, spec, plan, |plan|);
    TeardownClosed(o, w, spec, plan, |plan|);
    TeardownTidy(o, w, spec, plan, |plan|);
    ProtectedFromClosed(spec, w', |w.log|);
    forall f | Covers(spec, f) ensures Protected(spec, w'.machine, f) {
      ClosedProtects(spec, w'.machine, f);
    }
  }
}
