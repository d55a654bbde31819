/**
  The manager's install under every runner there is: on exactly which machines can no sequence of failures, ignored
  commands and lies bring about an instant with a step standing and its address on `main`.
 */
module ExposureLimits {
  import opened Kernel
  import opened Plan
  import opened PlanSafety
  import opened PlanReturns
  import opened Reconcile
  import opened PolicyManager
  import opened FlushWindow
  import opened Reassertion
  import opened TeardownWindow

  // ----- nothing foreign changes ---------------------------------------------------------------

  /** The commands the manager's install is made of. */
  ghost predicate OurCommand(spec: TunnelSpec, c: Command) {
    || IsProbe(c) || IsFlush(c)
    || (exists a :: c == ApplyCommand(spec, a))
    || (exists a :: c == UndoCommand(spec, a))
  }

  /** Both machines are governable, and answer alike for `f`'s address without our policy. */
  ghost predicate Alike(spec: TunnelSpec, m: Machine, m': Machine, f: Family) {
    TidyFor(spec, m') && Bare(spec, m', f) == Bare(spec, m, f)
  }

  lemma FlushKeepsAlike(spec: TunnelSpec, m: Machine, c: Command, f: Family)
    requires TidyFor(spec, m) && Covers(spec, f) && IsFlush(c)
    ensures Alike(spec, m, Effect(m, c), f)
  {
    FlushLoses(spec, m, c);
    if c.family == f {
      var rules, addr := m.Of(f).rules, spec.AddrOf(f);
      assert Tidy(m.Of(f), addr, spec.device);
      RemovalKeepsBare(rules, IsBackstopPriority, addr);
      RemovalKeepsBare(rules, IsPolicyLookup, addr);
    }
  }

  lemma StepKeepsAlike(spec: TunnelSpec, m: Machine, a: Step, f: Family)
    requires TidyFor(spec, m) && Covers(spec, f)
    ensures Alike(spec, m, Effect(m, ApplyCommand(spec, a)), f) && Alike(spec, m, Effect(m, UndoCommand(spec, a)), f)
  {
    TidyKept(spec, m, a);
    if a.family == f && IsRuleStep(a.kind) {
      OthersInsert(m.Of(f).rules, RuleOf(spec, a), spec.AddrOf(f));
      RemovalKeepsBare(m.Of(f).rules, Is(RuleOf(spec, a)), spec.AddrOf(f));
    }
  }

  /** Every machine logged from `base` on is governable and unchanged around our policy. */
  ghost predicate AlikeSince(spec: TunnelSpec, m: Machine, w: World, base: nat, f: Family) {
    Alike(spec, m, w.machine, f) && forall i :: base <= i < |w.log| ==> Alike(spec, m, w.log[i].machine, f)
  }

  lemma CommandKeepsAlike(o: Oracle, w: World, spec: TunnelSpec, c: Command, m: Machine, base: nat, f: Family)
    requires Covers(spec, f) && OurCommand(spec, c) && AlikeSince(spec, m, w, base, f)
    ensures AlikeSince(spec, m, Run(o, w, c).1, base, f) && w.log <= Run(o, w, c).1.log
  {
    hide TidyFor, Bare;
    if IsFlush(c) {
      FlushKeepsAlike(spec, w.machine, c, f);
    } else if a :| c == ApplyCommand(spec, a) {
      StepKeepsAlike(spec, w.machine, a, f);
    } else if a :| c == UndoCommand(spec, a) {
      StepKeepsAlike(spec, w.machine, a, f);
    }
    hide Effect;
  }

  lemma {:induction false} FlushesKeepAlike(
    o: Oracle, w: World, spec: TunnelSpec, commands: seq<Command>, m: Machine, base: nat, f: Family)
    requires Covers(spec, f) && (forall c :: c in commands ==> IsFlush(c)) && AlikeSince(spec, m, w, base, f)
    ensures AlikeSince(spec, m, BestEffort(o, w, commands).1, base, f)
    decreases |commands|
  {
    hide Run, AlikeSince;
    if commands != [] {
      assert commands[0] in commands;
      CommandKeepsAlike(o, w, spec, commands[0], m, base, f);
      FlushesKeepAlike(o, Run(o, w, commands[0]).1, spec, commands[1..], m, base, f);
    }
  }

  lemma StepsKeepAlike(o: Oracle, w: World, spec: TunnelSpec, a: Step, m: Machine, base: nat, f: Family)
    requires Covers(spec, f) && AlikeSince(spec, m, w, base, f)
    ensures AlikeSince(spec, m, InstallStep(o, w, spec, a).1, base, f)
    ensures AlikeSince(spec, m, UndoStep(o, w, spec, a).1, base, f)
  {
    hide Run, AlikeSince;
    var apply, undo := ApplyCommand(spec, a), UndoCommand(spec, a);
    CommandKeepsAlike(o, w, spec, apply, m, base, f);
    CommandKeepsAlike(o, w, spec, undo, m, base, f);
    CommandKeepsAlike(o, Run(o, w, apply).1, spec, ProbeOf(a), m, base, f);
    CommandKeepsAlike(o, Run(o, w, undo).1, spec, ProbeOf(a), m, base, f);
  }

  lemma {:induction false} TeardownKeepsAlike(
    o: Oracle, w: World, spec: TunnelSpec, plan: seq<Step>, n: nat, m: Machine, base: nat, f: Family)
    requires n <= |plan| && Covers(spec, f) && AlikeSince(spec, m, w, base, f)
    ensures AlikeSince(spec, m, Teardown(o, w, spec, plan, n).1, base, f)
    decreases n
  {
    hide UndoStep, AlikeSince;
    if n > 0 {
      StepsKeepAlike(o, w, spec, plan[n - 1], m, base, f);
      TeardownKeepsAlike(o, UndoStep(o, w, spec, plan[n - 1]).1, spec, plan, n - 1, m, base, f);
    }
  }

  lemma {:induction false} InstallKeepsAlike(
    o: Oracle, w: World, spec: TunnelSpec, plan: seq<Step>, i: nat, m: Machine, base: nat, f: Family)
    requires i <= |plan| && Covers(spec, f) && AlikeSince(spec, m, w, base, f)
    ensures AlikeSince(spec, m, Install(o, w, spec, plan, i).1, base, f)
    decreases |plan| - i
  {
    hide InstallStep, Teardown, AlikeSince;
    if i < |plan| {
      var w1 := InstallStep(o, w, spec, plan[i]).1;
      StepsKeepAlike(o, w, spec, plan[i], m, base, f);
      InstallKeepsAlike(o, w1, spec, plan, i + 1, m, base, f);
      TeardownKeepsAlike(o, w1, spec, plan, i + 1, m, base, f);
    }
  }

  lemma ManagedKeepsAlike(o: Oracle, w: World, spec: TunnelSpec, f: Family)
    requires TidyFor(spec, w.machine) && Covers(spec, f)
    ensures AlikeSince(spec, w.machine, ManagedInstall(o, w, spec).1, |w.log|, f)
  {
    hide Install, BestEffort, TidyFor;
    CleanupIsFlushes(spec);
    FlushesKeepAlike(o, w, spec, PreInstallCleanup(spec), w.machine, |w.log|, f);
    var w1 := BestEffort(o, w, PreInstallCleanup(spec)).1;
    InstallKeepsAlike(o, w1, spec, LinuxPlan(spec), 0, w.machine, |w.log|, f);
  }

  // ----- the backstop outlasts what it covers --------------------------------------------------

  /** Whatever else of `f` stands, its backstop does too. */
  ghost predicate Backed(spec: TunnelSpec, m: Machine, f: Family) {
    (exists k :: k != Backstop && Present(spec, m, Step(f, k))) ==> Present(spec, m, Step(f, Backstop))
  }

  ghost predicate BackedSince(spec: TunnelSpec, w: World, base: nat, f: Family) {
    forall i :: base <= i < |w.log| ==> Backed(spec, w.log[i].machine, f)
  }

  lemma BackedIsNotExposed(spec: TunnelSpec, m: Machine, f: Family)
    requires TidyFor(spec, m) && Covers(spec, f) && (Bare(spec, m, f) == Main ==> Backed(spec, m, f))
    ensures !Exposed(spec, m, f)
  {
    VerdictBySteps(spec, m, f);
    hide TidyFor, VerdictOf, Bare, Present;
    if k :| Present(spec, m, Step(f, k)) {
      assert k != Backstop ==> Backed(spec, m, f) || Bare(spec, m, f) != Main;
    }
  }

  /** A step of the plan leaves one machine behind, the one before it or the one its command makes. */
  lemma StepInstants(o: Oracle, w: World, spec: TunnelSpec, a: Step)
    ensures var w' := InstallStep(o, w, spec, a).1;
            && w.log <= w'.log && (forall i :: |w.log| <= i < |w'.log| ==> w'.log[i].machine == w'.machine)
            && (w'.machine == w.machine || w'.machine == Effect(w.machine, ApplyCommand(spec, a)))
    ensures var w' := UndoStep(o, w, spec, a).1;
            && w.log <= w'.log && (forall i :: |w.log| <= i < |w'.log| ==> w'.log[i].machine == w'.machine)
            && (w'.machine == w.machine || w'.machine == Effect(w.machine, UndoCommand(spec, a)))
  {
    hide Effect, Present;
    MutationRun(o, w, ApplyCommand(spec, a));
    EvaluateRun(o, Run(o, w, ApplyCommand(spec, a)).1, spec, a, true);
    MutationRun(o, w, UndoCommand(spec, a));
    EvaluateRun(o, Run(o, w, UndoCommand(spec, a)).1, spec, a, false);
  }

  /** Nothing of `f` from index `n` of the plan on stands, but possibly its backstop. */
  ghost predicate BareFrom(spec: TunnelSpec, m: Machine, f: Family, n: nat) {
    forall k :: k != Backstop && BaseOf(f) + Rank(k) >= n ==> !Present(spec, m, Step(f, k))
  }

  lemma IndexOf(spec: TunnelSpec, f: Family, i: nat)
    requires Covers(spec, f) && i < |LinuxPlan(spec)| && LinuxPlan(spec)[i].family == f
    ensures BaseOf(f) + Rank(LinuxPlan(spec)[i].kind) == i
  {
  }

  lemma StepAt(spec: TunnelSpec, f: Family, k: StepKind)
    requires Covers(spec, f)
    ensures BaseOf(f) + Rank(k) < |LinuxPlan(spec)| && LinuxPlan(spec)[BaseOf(f) + Rank(k)] == Step(f, k)
  {
  }

  lemma {:induction false} TeardownStaysBacked(o: Oracle, w: World, spec: TunnelSpec, n: nat, base: nat, f: Family)
    requires Covers(spec, f) && n <= |LinuxPlan(spec)| && base <= |w.log| && BackedSince(spec, w, base, f)
    requires Backed(spec, w.machine, f) && BareFrom(spec, w.machine, f, n)
    ensures BackedSince(spec, Teardown(o, w, spec, LinuxPlan(spec), n).1, base, f)
    decreases n
  {
    hide UndoStep, Present, Effect, LinuxPlan;
    if n > 0 {
      var a := LinuxPlan(spec)[n - 1];
      var (r, w1) := UndoStep(o, w, spec, a);
      StepInstants(o, w, spec, a);
      UndoStepRun(o, w, spec, a);
      FrameAll(spec, w.machine, a);
      assert Loses(spec, w.machine, w1.machine, a);
      if a.family == f {
        IndexOf(spec, f, n - 1);
      }
      assert Backed(spec, w1.machine, f);
      if r.Ok? {
        forall k | k != Backstop && BaseOf(f) + Rank(k) >= n - 1 ensures !Present(spec, w1.machine, Step(f, k)) {
          StepAt(spec, f, k);
        }
        TeardownStaysBacked(o, w1, spec, n - 1, base, f);
      }
    }
  }

  lemma {:induction false} InstallStaysBacked(o: Oracle, w: World, spec: TunnelSpec, i: nat, base: nat, f: Family)
    requires Covers(spec, f) && i <= |LinuxPlan(spec)| && base <= |w.log| && BackedSince(spec, w, base, f)
    requires BareFrom(spec, w.machine, f, i) && (i > BaseOf(f) ==> Present(spec, w.machine, Step(f, Backstop)))
    ensures BackedSince(spec, Install(o, w, spec, LinuxPlan(spec), i).1, base, f)
    decreases |LinuxPlan(spec)| - i
  {
    hide InstallStep, Teardown, Present, Effect, LinuxPlan;
    if i < |LinuxPlan(spec)| {
      var a := LinuxPlan(spec)[i];
      var (r, w1) := InstallStep(o, w, spec, a);
      StepInstants(o, w, spec, a);
      InstallStepRun(o, w, spec, a);
      FrameAll(spec, w.machine, a);
      assert Gains(spec, w.machine, w1.machine, a);
      BackstopAt(spec, f, i);
      if a.family == f {
        IndexOf(spec, f, i);
      }
      assert Backed(spec, w1.machine, f);
      if r.Ok? {
        InstallStaysBacked(o, w1, spec, i + 1, base, f);
      } else {
        TeardownStaysBacked(o, w1, spec, i + 1, base, f);
      }
    }
  }

  lemma BackstopAt(spec: TunnelSpec, f: Family, i: nat)
    requires Covers(spec, f) && i < |LinuxPlan(spec)|
    ensures i == BaseOf(f) <==> LinuxPlan(spec)[i] == Step(f, Backstop)
  {
  }

  /** Two copies of the backstop survive any install: the one undo there can be leaves the other. */
  lemma {:induction false} TwoCopiesOutlastTeardown(
    o: Oracle, w: World, spec: TunnelSpec, plan: seq<Step>, n: nat, base: nat, f: Family)
    requires n <= |plan| && base <= |w.log| && BackedSince(spec, w, base, f)
    requires Copies(spec, w.machine, Step(f, Backstop)) >= 2
    ensures BackedSince(spec, Teardown(o, w, spec, plan, n).1, base, f)
    decreases n
  {
    hide UndoStep, Present, Effect, Copies;
    if n > 0 {
      var a, s := plan[n - 1], Step(f, Backstop);
      var (r, w1) := UndoStep(o, w, spec, a);
      StepInstants(o, w, spec, a);
      StepsKeepDuplicates(o, w, spec, a, s);
      PresentByCopies(spec, w1.machine, s);
      UndoStepRun(o, w, spec, a);
      if r.Ok? {
        TwoCopiesOutlastTeardown(o, w1, spec, plan, n - 1, base, f);
      }
    }
  }

  lemma {:induction false} TwoCopiesOutlastInstall(
    o: Oracle, w: World, spec: TunnelSpec, plan: seq<Step>, i: nat, base: nat, f: Family)
    requires i <= |plan| && base <= |w.log| && BackedSince(spec, w, base, f)
    requires Copies(spec, w.machine, Step(f, Backstop)) >= 2
    ensures BackedSince(spec, Install(o, w, spec, plan, i).1, base, f)
    decreases |plan| - i
  {
    hide InstallStep, Teardown, Present, Effect, Copies;
    if i < |plan| {
      var s := Step(f, Backstop);
      var (r, w1) := InstallStep(o, w, spec, plan[i]);
      StepInstants(o, w, spec, plan[i]);
      StepsKeepDuplicates(o, w, spec, plan[i], s);
      PresentByCopies(spec, w1.machine, s);
      if r.Ok? {
        TwoCopiesOutlastInstall(o, w1, spec, plan, i + 1, base, f);
      } else {
        TwoCopiesOutlastTeardown(o, w1, spec, plan, i + 1, base, f);
      }
    }
  }

  // ----- through the flush ---------------------------------------------------------------------

  lemma {:induction false} FlushLeavesOnlyBackstop(
    o: Oracle, w: World, spec: TunnelSpec, commands: seq<Command>, base: nat, f: Family)
    requires (forall c :: c in commands ==> IsFlush(c)) && base <= |w.log| && BackedSince(spec, w, base, f)
    requires BareFrom(spec, w.machine, f, 0)
    ensures var w' := BestEffort(o, w, commands).1;
            w.log <= w'.log && BackedSince(spec, w', base, f) && BareFrom(spec, w'.machine, f, 0)
    decreases |commands|
  {
    hide Effect, Present;
    if commands != [] {
      var (r, w1) := Run(o, w, commands[0]);
      assert commands[0] in commands;
      MutationRun(o, w, commands[0]);
      FlushLoses(spec, w.machine, commands[0]);
      assert forall k :: k != Backstop ==> BaseOf(f) + Rank(k) >= 0;
      FlushLeavesOnlyBackstop(o, w1, spec, commands[1..], base, f);
    }
  }

  /** What a flush does to the copies of `f`'s backstop: nothing, unless it is `f`'s backstop flush. */
  lemma FlushCopies(spec: TunnelSpec, m: Machine, c: Command, f: Family)
    requires IsFlush(c) && c != BackstopFlush(f)
    ensures Copies(spec, Effect(m, c), Step(f, Backstop)) == Copies(spec, m, Step(f, Backstop))
  {
    var s := Step(f, Backstop);
    RemoveCount(m.Of(f).rules, IsPolicyLookup, Is(RuleOf(spec, s)));
  }

  lemma {:induction false} CopiesOutlastFlush(
    o: Oracle, w: World, spec: TunnelSpec, commands: seq<Command>, base: nat, f: Family)
    requires (forall c :: c in commands ==> IsFlush(c) && c != BackstopFlush(f))
    requires base <= |w.log| && BackedSince(spec, w, base, f) && Copies(spec, w.machine, Step(f, Backstop)) >= 2
    ensures var w' := BestEffort(o, w, commands).1;
            w.log <= w'.log && BackedSince(spec, w', base, f) && Copies(spec, w'.machine, Step(f, Backstop)) >= 2
    decreases |commands|
  {
    hide Effect, Present, Copies;
    if commands != [] {
      var (r, w1) := Run(o, w, commands[0]);
      assert commands[0] in commands;
      MutationRun(o, w, commands[0]);
      FlushCopies(spec, w.machine, commands[0], f);
      PresentByCopies(spec, w1.machine, Step(f, Backstop));
      CopiesOutlastFlush(o, w1, spec, commands[1..], base, f);
    }
  }

  // ----- who can be exposed --------------------------------------------------------------------

  lemma {:induction false} BestEffortConcat(o: Oracle, w: World, a: seq<Command>, b: seq<Command>)
    ensures var (r, w1) := BestEffort(o, w, a);
            BestEffort(o, w, a + b) == if r.Err? then (r, w1) else BestEffort(o, w1, b)
    decreases |a|
  {
    hide Run;
    if a == [] {
      assert a + b == b;
    } else {
      assert (a + b)[0] == a[0] && (a + b)[1..] == a[1..] + b;
      BestEffortConcat(o, Run(o, w, a[0]).1, a[1..], b);
    }
  }

  /** How many copies of `f`'s backstop its flush leaves. */
  function BackstopsLeft(spec: TunnelSpec, m: Machine, f: Family): nat {
    Copies(spec, Effect(m, BackstopFlush(f)), Step(f, Backstop))
  }

  lemma FlushTakesAtMostOne(spec: TunnelSpec, m: Machine, f: Family)
    ensures BackstopsLeft(spec, m, f) <= Copies(spec, m, Step(f, Backstop))
  {
    RemovalKeepsCount(m.Of(f).rules, IsBackstopPriority, Is(BackstopRule(spec.AddrOf(f))));
  }

  lemma OthersLeave(o: Oracle, w: World, spec: TunnelSpec, f: Family, g: Family)
    requires f != g
    ensures BestEffort(o, w, FlushesFor(g)).1.machine.Of(f) == w.machine.Of(f)
  {
    OnlyTouches(o, w, FlushesFor(g), f);
  }

  lemma {:induction false} OnlyTouches(o: Oracle, w: World, commands: seq<Command>, f: Family)
    requires forall c :: c in commands ==> IsFlush(c) && c.family != f
    ensures BestEffort(o, w, commands).1.machine.Of(f) == w.machine.Of(f)
    decreases |commands|
  {
    if commands != [] {
      assert commands[0] in commands;
      OnlyTouches(o, Run(o, w, commands[0]).1, commands[1..], f);
    }
  }

  /** `f`'s own flushes, and whatever comes after them, on a machine whose backstop outlasts its flush. */
  lemma OwnFlush(o: Oracle, w: World, spec: TunnelSpec, more: seq<Command>, base: nat, f: Family)
    requires base <= |w.log| && BackedSince(spec, w, base, f) && BackstopsLeft(spec, w.machine, f) >= 2
    requires forall c :: c in more ==> IsFlush(c) && c != BackstopFlush(f)
    ensures var w' := BestEffort(o, w, FlushesFor(f) + more).1;
            w.log <= w'.log && BackedSince(spec, w', base, f) && Copies(spec, w'.machine, Step(f, Backstop)) >= 2
  {
    var commands := FlushesFor(f) + more;
    assert commands[0] == BackstopFlush(f) && forall c :: c in commands[1..] ==> IsFlush(c) && c != BackstopFlush(f);
    FlushTakesAtMostOne(spec, w.machine, f);
    hide Effect, Present, Copies, FlushesFor;
    var (r, w1) := Run(o, w, commands[0]);
    MutationRun(o, w, commands[0]);
    PresentByCopies(spec, w1.machine, Step(f, Backstop));
    CopiesOutlastFlush(o, w1, spec, commands[1..], base, f);
  }

  lemma SameListsLeft(spec: TunnelSpec, m: Machine, m': Machine, f: Family)
    requires m.Of(f) == m'.Of(f)
    ensures BackstopsLeft(spec, m, f) == BackstopsLeft(spec, m', f)
  {
  }

  lemma CleanupKeepsTwo(o: Oracle, w: World, spec: TunnelSpec, f: Family)
    requires Covers(spec, f) && BackstopsLeft(spec, w.machine, f) >= 2
    ensures var (r, w') := BestEffort(o, w, PreInstallCleanup(spec));
            && w.log <= w'.log && BackedSince(spec, w', |w.log|, f)
            && (r.Ok? ==> Copies(spec, w'.machine, Step(f, Backstop)) >= 2)
  {
    var four, six := FlushesFor(V4), FlushesFor(V6);
    assert PreInstallCleanup(spec) == if spec.hasV6 then four + six else four;
    assert four + [] == four && six + [] == six;
    assert forall c :: c in four ==> IsFlush(c) && c != BackstopFlush(V6);
    assert forall c :: c in six ==> IsFlush(c) && c != BackstopFlush(V4);
    hide BestEffort, FlushesFor, PreInstallCleanup, BackstopsLeft, Copies, Backed;
    if f.V4? {
      OwnFlush(o, w, spec, if spec.hasV6 then six else [], |w.log|, V4);
    } else {
      FlushTakesAtMostOne(spec, w.machine, V6);
      CopiesOutlastFlush(o, w, spec, four, |w.log|, V6);
      OthersLeave(o, w, spec, V6, V4);
      BestEffortConcat(o, w, four, six);
      var (r, w1) := BestEffort(o, w, four);
      if r.Ok? {
        SameListsLeft(spec, w.machine, w1.machine, V6);
        OwnFlush(o, w1, spec, [], |w.log|, V6);
      }
    }
  }

  /** A runner can expose `f`: something its backstop covers stands, and the backstop can be brought down to none. */
  ghost predicate CanExpose(spec: TunnelSpec, m: Machine, f: Family) {
    WillExpose(spec, m, f) && BackstopsLeft(spec, m, f) <= 1
  }

  lemma SafeFromEveryRunner(o: Oracle, w: World, spec: TunnelSpec, f: Family)
    requires TidyFor(spec, w.machine) && Covers(spec, f) && !CanExpose(spec, w.machine, f)
    ensures !ExposedSince(spec, ManagedInstall(o, w, spec).1, |w.log|, f)
  {
    hide TidyFor, Present, Bare, Install, BestEffort, Exposed, BackstopsLeft, Copies, Alike;
    var (r, w1) := BestEffort(o, w, PreInstallCleanup(spec));
    var w' := ManagedInstall(o, w, spec).1;
    ManagedKeepsAlike(o, w, spec, f);
    if Bare(spec, w.machine, f) == Main {
      CleanupIsFlushes(spec);
      if BackstopsLeft(spec, w.machine, f) >= 2 {
        CleanupKeepsTwo(o, w, spec, f);
        if r.Ok? {
          TwoCopiesOutlastInstall(o, w1, spec, LinuxPlan(spec), 0, |w.log|, f);
        }
      } else {
        FlushLeavesOnlyBackstop(o, w, spec, PreInstallCleanup(spec), |w.log|, f);
        if r.Ok? {
          InstallStaysBacked(o, w1, spec, 0, |w.log|, f);
        }
      }
    }
    forall i | |w.log| <= i < |w'.log| ensures !Exposed(spec, w'.log[i].machine, f) {
      AlikeMeans(spec, w.machine, w'.log[i].machine, f);
      BackedIsNotExposed(spec, w'.log[i].machine, f);
    }
  }

  lemma AlikeMeans(spec: TunnelSpec, m: Machine, m': Machine, f: Family)
    requires Alike(spec, m, m', f)
    ensures TidyFor(spec, m') && Bare(spec, m', f) == Bare(spec, m, f)
  {
  }

  // ----- and how ---------------------------------------------------------------------------------

  /**
    The runner that exposes: of the cleanup it carries out only one family's backstop flush, and its table flush if
    asked to; every later command works, except that the one at `failAt` fails without effect.
   */
  function Plotter(first: nat, table: bool, flushes: nat, failAt: nat): Oracle {
    t => Response(if t < flushes then t == first || (table && t == first + 2) else t != failAt,
                  if t == failAt then ExitNonZero else ExitZero, ExitZero)
  }

  function Maybe(m: Machine, c: Command, effect: bool): Machine { if effect then Effect(m, c) else m }

  lemma OneFlush(o: Oracle, w: World, c: Command, rest: seq<Command>)
    requires IsFlush(c) && o(|w.log|).report == ExitZero
    ensures var m := Maybe(w.machine, c, o(|w.log|).effect);
            BestEffort(o, w, [c] + rest) == BestEffort(o, World(m, w.log + [Entry(c, m)]), rest)
  {
    hide Effect;
    assert ([c] + rest)[1..] == rest;
  }

  /** Three flushes that all report success, whichever of them take effect. */
  lemma ThreeFlushes(o: Oracle, w: World, g: Family)
    requires forall t: nat :: |w.log| <= t < |w.log| + 3 ==> o(t).report == ExitZero
    ensures var n := |w.log|;
            var m1 := Maybe(w.machine, BackstopFlush(g), o(n).effect);
            var m2 := Maybe(m1, RuleFlush(g), o(n + 1).effect);
            var (r, w') := BestEffort(o, w, FlushesFor(g));
            r.Ok? && |w'.log| == n + 3 && w'.machine == Maybe(m2, TableFlush(g), o(n + 2).effect)
  {
    var n := |w.log|;
    var b, r, t := BackstopFlush(g), RuleFlush(g), TableFlush(g);
    assert FlushesFor(g) == [b] + [r, t] && [r, t] == [r] + [t] && [t] == [t] + [];
    hide Maybe, FlushesFor, BestEffort;
    var m1 := Maybe(w.machine, b, o(n).effect);
    var w1 := World(m1, w.log + [Entry(b, m1)]);
    var m2 := Maybe(m1, r, o(n + 1).effect);
    var w2 := World(m2, w1.log + [Entry(r, m2)]);
    var m3 := Maybe(m2, t, o(n + 2).effect);
    OneFlush(o, w, b, [r, t]);
    OneFlush(o, w1, r, [t]);
    OneFlush(o, w2, t, []);
    NoFlush(o, World(m3, w2.log + [Entry(t, m3)]));
  }

  lemma NoFlush(o: Oracle, w: World)
    ensures BestEffort(o, w, []) == (Ok, w)
  {
  }

  lemma MaybeLists(m: Machine, g: Family, table: bool)
    ensures var m1 := Maybe(m, BackstopFlush(g), true);
            var s := m.Of(g);
            var m' := Maybe(Maybe(m1, RuleFlush(g), false), TableFlush(g), table);
            && m'.Of(g) == Stack(RemoveFirst(s.rules, IsBackstopPriority), if table then [] else s.table)
            && forall f :: f != g ==> m'.Of(f) == m.Of(f)
    ensures Maybe(Maybe(Maybe(m, BackstopFlush(g), false), RuleFlush(g), false), TableFlush(g), false) == m
  {
    hide RemoveFirst;
  }

  /** The cleanup under the plotter: `f` keeps all but a backstop, and its table unless told otherwise. */
  lemma PlottedFlush(spec: TunnelSpec, m: Machine, f: Family, table: bool, failAt: nat)
    requires Covers(spec, f) && failAt >= |PreInstallCleanup(spec)|
    ensures var o := Plotter(if f.V4? then 0 else 3, table, |PreInstallCleanup(spec)|, failAt);
            var (r, w') := BestEffort(o, World(m, []), PreInstallCleanup(spec));
            var s := m.Of(f);
            && r.Ok? && |w'.log| == |PreInstallCleanup(spec)|
            && w'.machine.Of(f) == Stack(RemoveFirst(s.rules, IsBackstopPriority), if table then [] else s.table)
  {
    var all := PreInstallCleanup(spec);
    assert all == if spec.hasV6 then FlushesFor(V4) + FlushesFor(V6) else FlushesFor(V4);
    var o := Plotter(if f.V4? then 0 else 3, table, |all|, failAt);
    hide Maybe, BestEffort, PreInstallCleanup, FlushesFor, RemoveFirst;
    var w := World(m, []);
    ThreeFlushes(o, w, V4);
    MaybeLists(m, V4, table);
    if spec.hasV6 {
      var w1 := BestEffort(o, w, FlushesFor(V4)).1;
      ThreeFlushes(o, w1, V6);
      MaybeLists(w1.machine, V6, table);
      BestEffortConcat(o, w, FlushesFor(V4), FlushesFor(V6));
    }
  }

  /** Steps whose commands work succeed, and leave the other family alone. */
  lemma {:induction false} StepsSucceed(o: Oracle, w: World, spec: TunnelSpec, i: nat, n: nat, f: Family)
    returns (w': World)
    requires i <= n <= |LinuxPlan(spec)| && TidyFor(spec, w.machine)
    requires forall t: nat :: |w.log| <= t < |w.log| + 2 * (n - i) ==> o(t) == Response(true, ExitZero, ExitZero)
    requires forall j :: i <= j < n ==> LinuxPlan(spec)[j].family != f
    ensures Install(o, w, spec, LinuxPlan(spec), i) == Install(o, w', spec, LinuxPlan(spec), n)
    ensures TidyFor(spec, w'.machine) && |w'.log| == |w.log| + 2 * (n - i) && w'.machine.Of(f) == w.machine.Of(f)
    decreases n - i
  {
    w' := w;
    if i < n {
      var a := LinuxPlan(spec)[i];
      var (r, w1) := InstallStep(o, w, spec, a);
      WorkingStep(o, w, spec, i);
      hide InstallStep, TidyFor;
      w' := StepsSucceed(o, w1, spec, i + 1, n, f);
    }
  }

  lemma WorkingStep(o: Oracle, w: World, spec: TunnelSpec, i: nat)
    requires i < |LinuxPlan(spec)| && TidyFor(spec, w.machine)
    requires o(|w.log|) == o(|w.log| + 1) == Response(true, ExitZero, ExitZero)
    ensures var a := LinuxPlan(spec)[i];
            var (r, w') := InstallStep(o, w, spec, a);
            && r.Ok? && TidyFor(spec, w'.machine) && |w'.log| == |w.log| + 2
            && w'.machine == Effect(w.machine, ApplyCommand(spec, a))
            && forall f :: f != a.family ==> w'.machine.Of(f) == w.machine.Of(f)
  {
    var a := LinuxPlan(spec)[i];
    assert forall f :: f != a.family ==> Effect(w.machine, ApplyCommand(spec, a)).Of(f) == w.machine.Of(f);
    assert Covers(spec, a.family);
    hide TidyFor, Present, Effect, LinuxPlan;
    TidyKept(spec, w.machine, a);
    Frame(spec, w.machine, a, a);
    if !Present(spec, w.machine, a) {
      MissingApplyTakes(spec, w.machine, a);
    }
    MutationRun(o, w, ApplyCommand(spec, a));
    EvaluateRun(o, Run(o, w, ApplyCommand(spec, a)).1, spec, a, true);
  }

  /** A step that fails without effect is rolled back all the same: its undo is the next command. */
  lemma FailureUndoes(o: Oracle, w: World, spec: TunnelSpec, i: nat)
    requires i < |LinuxPlan(spec)| && TidyFor(spec, w.machine)
    requires o(|w.log|).report == ExitNonZero && !o(|w.log|).effect && o(|w.log| + 1).effect
    ensures var w', a := Install(o, w, spec, LinuxPlan(spec), i).1, LinuxPlan(spec)[i];
            |w'.log| > |w.log| + 1 && w'.log[|w.log| + 1].machine == Effect(w.machine, UndoCommand(spec, a))
  {
    hide TidyFor, Present, Effect, LinuxPlan;
    var plan := LinuxPlan(spec);
    var (r, w1) := InstallStep(o, w, spec, plan[i]);
    assert r.Err? && w1 == World(w.machine, w.log + [Entry(ApplyCommand(spec, plan[i]), w.machine)]);
    var (u, w2) := UndoStep(o, w1, spec, plan[i]);
    var undone := Run(o, w1, UndoCommand(spec, plan[i])).1;
    EvaluateRun(o, undone, spec, plan[i], false);
    assert undone.log <= w2.log && undone.log[|w.log| + 1].machine == Effect(w.machine, UndoCommand(spec, plan[i]));
    StepsKeepTidy(o, w1, spec, plan[i]);
    if u.Ok? {
      TeardownTidy(o, w2, spec, plan, i);
    }
  }

  /** The lists of `f` once its last backstop is undone: what is left is on `main`. */
  lemma UndoneIsExposed(spec: TunnelSpec, m: Machine, f: Family, m1: Machine)
    requires TidyFor(spec, m) && Covers(spec, f) && CanExpose(spec, m, f)
    requires var s := m.Of(f);
             m1.Of(f) == Stack(RemoveFirst(s.rules, IsBackstopPriority),
                               if PolicyRule(spec.AddrOf(f)) in s.rules then [] else s.table)
    requires Alike(spec, m, Effect(m1, UndoCommand(spec, Step(f, Backstop))), f)
    ensures Exposed(spec, Effect(m1, UndoCommand(spec, Step(f, Backstop))), f)
  {
    var a, s, addr := Step(f, Backstop), m.Of(f), spec.AddrOf(f);
    var m2 := Effect(m1, UndoCommand(spec, a));
    assert m2.Of(f) == m1.Of(f).(rules := RemoveFirst(m1.Of(f).rules, Is(BackstopRule(addr))));
    assert Copies(spec, m1, a) == BackstopsLeft(spec, m, f);
    UndoCopies(spec, m1, a, a);
    PresentByCopies(spec, m2, a);
    RemoveMembers(s.rules, IsBackstopPriority);
    RemoveMembers(m1.Of(f).rules, Is(BackstopRule(addr)));
    assert PolicyRule(addr) in m2.Of(f).rules <==> PolicyRule(addr) in s.rules;
    ExposureByLists(spec, m, f);
    ExposureByLists(spec, m2, f);
    assert Present(spec, m2, a) <==> BackstopRule(addr) in m2.Of(f).rules;
  }

  /** The plotter drives the install to the undo of `f`'s backstop, with `f` otherwise as the cleanup left it. */
  lemma PlotReaches(spec: TunnelSpec, m: Machine, f: Family, table: bool)
    returns (o: Oracle, m1: Machine, k: nat)
    requires TidyFor(spec, m) && Covers(spec, f)
    ensures var s := m.Of(f);
            m1.Of(f) == Stack(RemoveFirst(s.rules, IsBackstopPriority), if table then [] else s.table)
    ensures var log := ManagedInstall(o, World(m, []), spec).1.log;
            k < |log| && log[k].machine == Effect(m1, UndoCommand(spec, Step(f, Backstop)))
  {
    var plan, n, flushes := LinuxPlan(spec), BaseOf(f), |PreInstallCleanup(spec)|;
    o := Plotter(if f.V4? then 0 else 3, table, flushes, flushes + 2 * n);
    var w := World(m, []);
    PlottedFlush(spec, m, f, table, flushes + 2 * n);
    CleanupIsFlushes(spec);
    StepAt(spec, f, Backstop);
    assert forall j :: 0 <= j < n ==> plan[j].family != f;
    hide TidyFor, Install, BestEffort, LinuxPlan, PreInstallCleanup, Effect, RemoveFirst;
    var w1 := BestEffort(o, w, PreInstallCleanup(spec)).1;
    TidyAfterFlush(o, w, spec, f);
    var w2 := StepsSucceed(o, w1, spec, 0, n, f);
    FailureUndoes(o, w2, spec, n);
    m1, k := w2.machine, |w2.log| + 1;
  }

  lemma TidyAfterFlush(o: Oracle, w: World, spec: TunnelSpec, f: Family)
    requires TidyFor(spec, w.machine) && Covers(spec, f)
    ensures TidyFor(spec, BestEffort(o, w, PreInstallCleanup(spec)).1.machine)
  {
    hide TidyFor, BestEffort, PreInstallCleanup, Bare;
    CleanupIsFlushes(spec);
    FlushesKeepAlike(o, w, spec, PreInstallCleanup(spec), w.machine, |w.log|, f);
  }

  lemma SomeRunnerExposes(spec: TunnelSpec, m: Machine, f: Family) returns (o: Oracle)
    requires TidyFor(spec, m) && Covers(spec, f) && CanExpose(spec, m, f)
    ensures ExposedSince(spec, ManagedInstall(o, World(m, []), spec).1, 0, f)
  {
    hide TidyFor, ManagedInstall, CanExpose, Exposed, Effect, RemoveFirst, Alike;
    var m1, k;
    o, m1, k := PlotReaches(spec, m, f, PolicyRule(spec.AddrOf(f)) in m.Of(f).rules);
    ManagedKeepsAlike(o, World(m, []), spec, f);
    UndoneIsExposed(spec, m, f, m1);
    assert Exposed(spec, ManagedInstall(o, World(m, []), spec).1.log[k].machine, f);
  }

  /**
    On a governable machine, no runner at all can make the manager's install expose `f`, if and only if nothing but
    the backstop of `f` stood beforehand, or something foreign refuses the address, or its backstop is there so often
    that one flush and one undo cannot remove it.
   */
  lemma NoRunnerExposesIff(spec: TunnelSpec, m: Machine, f: Family)
    requires TidyFor(spec, m) && Covers(spec, f)
    ensures (forall o: Oracle, log: seq<Entry> ::
               !ExposedSince(spec, ManagedInstall(o, World(m, log), spec).1, |log|, f)) <==>
            !(WillExpose(spec, m, f) && BackstopsLeft(spec, m, f) <= 1)
  {
    hide ExposedSince, ManagedInstall, TidyFor, WillExpose, BackstopsLeft;
    if CanExpose(spec, m, f) {
      var o := SomeRunnerExposes(spec, m, f);
      var none: seq<Entry> := [];
      assert ExposedSince(spec, ManagedInstall(o, World(m, none), spec).1, |none|, f);
    } else {
      forall o: Oracle, log: seq<Entry>
        ensures !ExposedSince(spec, ManagedInstall(o, World(m, log), spec).1, |log|, f)
      {
        SafeFromEveryRunner(o, World(m, log), spec, f);
      }
    }
  }
}
