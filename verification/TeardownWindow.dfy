/**
  A teardown is fail-closed from any prefix of the policy. Here: what it does once someone else has deleted the
  backstop from under a session, and from exactly which machines it then exposes the address.
 */
module TeardownWindow {
  import opened Kernel
  import opened Plan
  import opened PlanSafety
  import opened PlanReturns
  import opened FlushWindow

  /** The machine with these steps taken away, the last first. */
  function Without(spec: TunnelSpec, m: Machine, steps: seq<Step>): Machine
    decreases |steps|
  {
    if steps == [] then m
    else
      var n := |steps| - 1;
      Without(spec, Effect(m, UndoCommand(spec, steps[n])), steps[..n])
  }

  ghost predicate NoDuplicates(spec: TunnelSpec, m: Machine) { forall s :: Copies(spec, m, s) <= 1 }

  /** Nothing but our own steps differs between the two machines. */
  ghost predicate SameAround(spec: TunnelSpec, m: Machine, m': Machine) {
    TidyFor(spec, m') && forall f :: Bare(spec, m', f) == Bare(spec, m, f)
  }

  lemma OneStepGone(spec: TunnelSpec, m: Machine, a: Step)
    requires TidyFor(spec, m) && NoDuplicates(spec, m)
    ensures var m' := Effect(m, UndoCommand(spec, a));
            && SameAround(spec, m, m') && NoDuplicates(spec, m')
            && forall s :: Present(spec, m', s) <==> Present(spec, m, s) && s != a
  {
    var m' := Effect(m, UndoCommand(spec, a));
    TidyKept(spec, m, a);
    forall s
      ensures Copies(spec, m', s) <= 1 && (Present(spec, m', s) <==> Present(spec, m, s) && s != a)
    {
      UndoCopies(spec, m, a, s);
      PresentByCopies(spec, m, s);
      PresentByCopies(spec, m', s);
    }
    forall f ensures Bare(spec, m', f) == Bare(spec, m, f) {
      if IsRuleStep(a.kind) && a.family == f {
        RemovalKeepsBare(m.Of(f).rules, Is(RuleOf(spec, a)), spec.AddrOf(f));
      }
    }
  }

  lemma {:induction false} WithoutHolds(spec: TunnelSpec, m: Machine, steps: seq<Step>)
    requires TidyFor(spec, m) && NoDuplicates(spec, m)
    ensures var m' := Without(spec, m, steps);
            && SameAround(spec, m, m')
            && forall s :: Present(spec, m', s) <==> Present(spec, m, s) && s !in steps
    decreases |steps|
  {
    hide Effect, Present, Copies, Bare, TidyFor;
    if steps != [] {
      var n := |steps| - 1;
      assert steps == steps[..n] + [steps[n]];
      OneStepGone(spec, m, steps[n]);
      WithoutHolds(spec, Effect(m, UndoCommand(spec, steps[n])), steps[..n]);
    }
  }

  lemma UndoStepLog(o: Oracle, w: World, spec: TunnelSpec, a: Step)
    requires Responsive(o) && Copies(spec, w.machine, a) <= 1
    ensures var m := Effect(w.machine, UndoCommand(spec, a));
            UndoStep(o, w, spec, a) == (Ok, World(m, w.log + [Entry(UndoCommand(spec, a), m)] + [Entry(ProbeOf(a), m)]))
  {
    hide Effect, Present, Copies;
    UndoStepResponsive(o, w, spec, a);
    MutationRun(o, w, UndoCommand(spec, a));
    EvaluateRun(o, Run(o, w, UndoCommand(spec, a)).1, spec, a, false);
  }

  /** The instants of a working teardown are the machines with ever more of the plan taken away. */
  lemma {:induction false} TeardownInstants(
    o: Oracle, w: World, spec: TunnelSpec, plan: seq<Step>, n: nat, f: Family)
    requires Responsive(o) && n <= |plan| && TidyFor(spec, w.machine) && NoDuplicates(spec, w.machine)
    ensures var w' := Teardown(o, w, spec, plan, n).1;
            && w.log <= w'.log
            && (ExposedSince(spec, w', |w.log|, f) <==>
                  exists j :: 0 <= j < n && Exposed(spec, Without(spec, w.machine, plan[j..n]), f))
    decreases n
  {
    hide Effect, Present, Copies, Exposed, TidyFor, UndoStep;
    if n > 0 {
      var a, base := plan[n - 1], |w.log|;
      var m1 := Effect(w.machine, UndoCommand(spec, a));
      UndoStepLog(o, w, spec, a);
      OneStepGone(spec, w.machine, a);
      var w1 := UndoStep(o, w, spec, a).1;
      TeardownInstants(o, w1, spec, plan, n - 1, f);
      var w' := Teardown(o, w1, spec, plan, n - 1).1;
      forall j | 0 <= j < n ensures Without(spec, w.machine, plan[j..n]) == Without(spec, m1, plan[j..n - 1]) {
        assert plan[j..n][..n - j - 1] == plan[j..n - 1];
      }
      assert plan[n - 1..n - 1] == [] && Without(spec, m1, []) == m1;
      assert w1.log[base].machine == m1 && w1.log[base + 1].machine == m1;
      assert w'.log[base].machine == m1 && w'.log[base + 1].machine == m1;
      if i :| base <= i < |w'.log| && Exposed(spec, w'.log[i].machine, f) {
        if i < base + 2 {
          assert Exposed(spec, Without(spec, w.machine, plan[n - 1..n]), f);
        } else {
          assert ExposedSince(spec, w', |w1.log|, f);
          var j :| 0 <= j < n - 1 && Exposed(spec, Without(spec, m1, plan[j..n - 1]), f);
          assert Exposed(spec, Without(spec, w.machine, plan[j..n]), f);
        }
      }
      if j :| 0 <= j < n && Exposed(spec, Without(spec, w.machine, plan[j..n]), f) {
        if j == n - 1 {
          assert Exposed(spec, w'.log[base].machine, f);
        } else {
          assert Exposed(spec, Without(spec, m1, plan[j..n - 1]), f);
          var i :| |w1.log| <= i < |w'.log| && Exposed(spec, w'.log[i].machine, f);
        }
      }
    }
  }

  /** Where family `f`'s steps begin in the plan. */
  function BaseOf(f: Family): nat { if f.V4? then 0 else 4 }

  lemma StillThere(spec: TunnelSpec, m: Machine, f: Family, j: nat, k: StepKind)
    requires TidyFor(spec, m) && NoDuplicates(spec, m) && Covers(spec, f) && j <= |LinuxPlan(spec)|
    ensures Present(spec, Without(spec, m, LinuxPlan(spec)[j..]), Step(f, k)) <==>
            Present(spec, m, Step(f, k)) && BaseOf(f) + Rank(k) < j
  {
    var plan := LinuxPlan(spec);
    hide Present, Without, TidyFor;
    WithoutHolds(spec, m, plan[j..]);
    var at := BaseOf(f) + Rank(k);
    assert plan[at] == Step(f, k);
    assert at >= j ==> plan[j..][at - j] == Step(f, k) && Step(f, k) in plan[j..];
    if Step(f, k) in plan[j..] {
      var i :| j <= i < |plan| && plan[i] == Step(f, k);
      LinuxPlanOrdered(spec);
      if i != at {
        OrderedDistinct(plan, i, at);
      }
    }
  }

  /**
    Before the teardown: no backstop, nothing foreign that refuses the address, and something that outlives the
    rule or stands while the other family is taken down first.
   */
  ghost predicate WillExposeOnTeardown(spec: TunnelSpec, m: Machine, f: Family) {
    && !Present(spec, m, Step(f, Backstop)) && Bare(spec, m, f) == Main
    && (|| Present(spec, m, Step(f, PolicyRuleStep))
        || Present(spec, m, Step(f, Floor))
        || (Present(spec, m, Step(f, TunnelRouteStep)) && f.V4? && spec.hasV6))
  }

  /** One instant of the teardown, in step vocabulary. */
  lemma ExposedAt(spec: TunnelSpec, m: Machine, f: Family, j: nat)
    requires TidyFor(spec, m) && NoDuplicates(spec, m) && Covers(spec, f) && j <= |LinuxPlan(spec)|
    ensures var b := BaseOf(f);
            var rule := Present(spec, m, Step(f, PolicyRuleStep)) && b + 2 < j;
            var floor := Present(spec, m, Step(f, Floor)) && b + 1 < j;
            var route := Present(spec, m, Step(f, TunnelRouteStep)) && b + 3 < j;
            Exposed(spec, Without(spec, m, LinuxPlan(spec)[j..]), f) <==>
              && rule != (floor || route)
              && !(Present(spec, m, Step(f, Backstop)) && b < j) && Bare(spec, m, f) == Main
  {
    var m' := Without(spec, m, LinuxPlan(spec)[j..]);
    WithoutHolds(spec, m, LinuxPlan(spec)[j..]);
    StillThere(spec, m, f, j, Backstop);
    StillThere(spec, m, f, j, Floor);
    StillThere(spec, m, f, j, PolicyRuleStep);
    StillThere(spec, m, f, j, TunnelRouteStep);
    VerdictBySteps(spec, m', f);
    hide Present, Without, TidyFor, VerdictOf, Bare, LinuxPlan;
    if k :| Present(spec, m', Step(f, k)) {
      assert k.Backstop? || k.Floor? || k.PolicyRuleStep? || k.TunnelRouteStep?;
    }
  }

  /**
    A teardown with every command working, over a policy without duplicates, has an instant with a step standing and
    its address on `main`, exactly when the backstop was already gone and something it should have covered was not.
   */
  lemma TeardownExposesIff(o: Oracle, w: World, spec: TunnelSpec, f: Family)
    requires Responsive(o) && TidyFor(spec, w.machine) && NoDuplicates(spec, w.machine) && Covers(spec, f)
    ensures var plan := LinuxPlan(spec);
            ExposedSince(spec, Teardown(o, w, spec, plan, |plan|).1, |w.log|, f) <==>
              WillExposeOnTeardown(spec, w.machine, f)
  {
    var plan, b := LinuxPlan(spec), BaseOf(f);
    var n := |plan|;
    assert n == if spec.hasV6 then 8 else 4;
    hide LinuxPlan, Teardown, Without, Present, Exposed, Bare, TidyFor, NoDuplicates;
    TeardownInstants(o, w, spec, plan, n, f);
    forall j: nat | j <= n ensures plan[j..n] == plan[j..] {}
    forall j: nat | j < n && Exposed(spec, Without(spec, w.machine, plan[j..n]), f)
      ensures WillExposeOnTeardown(spec, w.machine, f)
    {
      ExposedAt(spec, w.machine, f, j);
    }
    if WillExposeOnTeardown(spec, w.machine, f) {
      var j := if Present(spec, w.machine, Step(f, Floor)) then b + 2
               else if Present(spec, w.machine, Step(f, PolicyRuleStep)) then b + 3
               else b + 4;
      ExposedAt(spec, w.machine, f, j);
      assert Exposed(spec, Without(spec, w.machine, plan[j..n]), f);
    }
  }

  /** A live session whose backstop someone deleted: traffic still goes through the tunnel. */
  function BareMachine(): Machine {
    Machine(Stack([PolicyRule(7)], [TunnelRoute("tun0"), FloorRoute()]), Stack([], []))
  }

  lemma BareMachineIsLive()
    ensures TidyFor(DemoSpec(), BareMachine()) && NoDuplicates(DemoSpec(), BareMachine())
    ensures VerdictOf(DemoSpec(), BareMachine(), V4) == Via("tun0")
  {
    var m := BareMachine();
    assert m.v4.rules[1..] == [] && m.v4.table[1..] == [FloorRoute()] && m.v4.table[1..][1..] == [];
    assert Sorted(m.v4.table[1..], MetricOf);
  }

  /** Tearing it down, every command working, puts its address on `main` while the floor still stands. */
  lemma TeardownOpensAWindow(o: Oracle)
    requires Responsive(o)
    ensures var plan := LinuxPlan(DemoSpec());
            && VerdictOf(DemoSpec(), BareMachine(), V4) == Via("tun0")
            && ExposedSince(DemoSpec(), Teardown(o, World(BareMachine(), []), DemoSpec(), plan, |plan|).1, 0, V4)
  {
    BareMachineIsLive();
    TeardownExposesIff(o, World(BareMachine(), []), DemoSpec(), V4);
    assert BareMachine().v4.rules[1..] == [];
  }
}
