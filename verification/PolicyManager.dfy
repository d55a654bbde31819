/**
  The front door of tunnel policy: leftovers of a dead session are flushed, best effort, before the plan is
  installed. What that flush can and cannot clear decides whether the install starts from nothing.
 */
module PolicyManager {
  import opened Kernel
  import opened Plan
  import opened PlanSafety
  import opened PlanReturns
  import opened Reconcile

  /** One family's leftovers, removed wholesale: the backstop by priority, the rule by table, the table. */
  function FlushesFor(f: Family): seq<Command> { [BackstopFlush(f), RuleFlush(f), TableFlush(f)] }

  function PreInstallCleanup(spec: TunnelSpec): seq<Command> {
    FlushesFor(V4) + if spec.hasV6 then FlushesFor(V6) else []
  }

  /** The manager's install: a flush that cannot even be started fails it; one that finds nothing does not. */
  function ManagedInstall(o: Oracle, w: World, spec: TunnelSpec): (Outcome, World) {
    var (r, w1) := BestEffort(o, w, PreInstallCleanup(spec));
    if r.Err? then (r, w1) else Install(o, w1, spec, LinuxPlan(spec), 0)
  }

  lemma FlushesSweep(m: Machine, f: Family)
    ensures Apply(m, FlushesFor(f)) == m.With(f, Swept(m.Of(f)))
  {
  }

  lemma CleanupSweeps(spec: TunnelSpec, m: Machine)
    ensures var m' := Apply(m, PreInstallCleanup(spec));
            && (forall f :: Covers(spec, f) ==> m'.Of(f) == Swept(m.Of(f)))
  {
    hide Swept;
    FlushesSweep(m, V4);
    if spec.hasV6 {
      ApplyConcat(m, FlushesFor(V4), FlushesFor(V6));
      FlushesSweep(m.With(V4, Swept(m.v4)), V6);
    } else {
      assert PreInstallCleanup(spec) == FlushesFor(V4);
    }
  }

  /** No rule of anyone else's, outside what we own, takes the tun address ahead of the backstop. */
  ghost predicate Polite(s: Stack, addr: Addr) {
    && Sorted(s.rules, PriorityOf)
    && forall r :: r in s.rules && Matches(r, addr) && r.priority < BACKSTOP_PRIORITY && !IsPolicyLookup(r)
         ==> r.action == Lookup(LOCAL_TABLE)
  }

  lemma SweptIsTidyAndClean(s: Stack, addr: Addr, device: string)
    requires Owned(s) && Polite(s, addr) && Need(s) <= 1
    ensures Tidy(Swept(s), addr, device)
    ensures BackstopRule(addr) !in Swept(s).rules && PolicyRule(addr) !in Swept(s).rules && Swept(s).table == []
  {
    var r1 := RemoveFirst(s.rules, IsBackstopPriority);
    var t := Swept(s);
    SweptNeedsOneLess(s);
    RemoveMembers(s.rules, IsBackstopPriority);
    RemoveMembers(r1, IsPolicyLookup);
    RemoveSorted(s.rules, IsBackstopPriority, PriorityOf);
    RemoveSorted(r1, IsPolicyLookup, PriorityOf);
    CountPositive(t.rules, IsBackstopPriority);
    CountPositive(t.rules, IsPolicyLookup);
    assert forall r :: r in t.rules ==> !IsBackstopPriority(r) && !IsPolicyLookup(r);
  }

  /** What one dead session can leave: at most one copy of each of its rules, in each family. */
  ghost predicate OneSessionsResidue(spec: TunnelSpec, m: Machine) {
    forall f :: Covers(spec, f) ==>
      Owned(m.Of(f)) && Polite(m.Of(f), spec.AddrOf(f)) && Need(m.Of(f)) <= 1
  }

  lemma CleanupMakesClean(spec: TunnelSpec, m: Machine)
    requires OneSessionsResidue(spec, m)
    ensures Clean(spec, Apply(m, PreInstallCleanup(spec)))
  {
    var m' := Apply(m, PreInstallCleanup(spec));
    var plan := LinuxPlan(spec);
    CleanupSweeps(spec, m);
    forall f | Covers(spec, f)
      ensures Tidy(m'.Of(f), spec.AddrOf(f), spec.device)
      ensures forall k :: !Present(spec, m', Step(f, k))
    {
      SweptIsTidyAndClean(m.Of(f), spec.AddrOf(f), spec.device);
    }
    assert Tidy(m'.Of(V4), spec.v4, spec.device);
    assert spec.hasV6 ==> Tidy(m'.Of(V6), spec.v6, spec.device);
    forall i | 0 <= i < |plan| ensures !Present(spec, m', plan[i]) {
      assert Covers(spec, plan[i].family) && plan[i] == Step(plan[i].family, plan[i].kind);
    }
  }

  /**
    After a crash that left one session's policy behind, a flush that works makes the whole install that
    follows fail-closed, under any runner: protected after every command, a working tunnel on `Ok`, and a
    clean machine on every error but `RollbackFailed`.
   */
  lemma ManagedInstallFailClosed(o: Oracle, w: World, spec: TunnelSpec)
    requires OneSessionsResidue(spec, w.machine) && Acts(o, |w.log|, |PreInstallCleanup(spec)|)
    ensures var (r, w') := ManagedInstall(o, w, spec);
            && ProtectedSince(spec, w', |w.log| + |PreInstallCleanup(spec)|)
            && (r.Ok? ==> forall f :: Covers(spec, f) ==> VerdictOf(spec, w'.machine, f) == Via(spec.device))
            && (r.Err? && !r.error.RollbackFailed? ==> Clean(spec, w'.machine))
  {
    hide Install, Clean, Apply;
    BestEffortApplies(o, w, PreInstallCleanup(spec));
    CleanupMakesClean(spec, w.machine);
    InstallFailClosed(o, BestEffort(o, w, PreInstallCleanup(spec)).1, spec);
  }

  // ----- from a clean machine, and from any machine ----------------------------------------------

  predicate IsFlush(c: Command) { c.BackstopFlush? || c.RuleFlush? || c.TableFlush? }

  lemma CleanupIsFlushes(spec: TunnelSpec)
    ensures forall c :: c in PreInstallCleanup(spec) ==> IsFlush(c)
  {
  }

  /** A flush only ever takes steps away, and leaves the rest of the machine as governable as it was. */
  lemma FlushLoses(spec: TunnelSpec, m: Machine, c: Command)
    requires IsFlush(c)
    ensures forall s :: Present(spec, Effect(m, c), s) ==> Present(spec, m, s)
    ensures TidyFor(spec, m) ==> TidyFor(spec, Effect(m, c))
  {
    var s := m.Of(c.family);
    RemoveMembers(s.rules, IsBackstopPriority);
    RemoveMembers(s.rules, IsPolicyLookup);
    if TidyFor(spec, m) && Covers(spec, c.family) {
      RemoveSorted(s.rules, IsBackstopPriority, PriorityOf);
      RemoveSorted(s.rules, IsPolicyLookup, PriorityOf);
    }
  }

  /** Whatever the runner does with the flushes, nothing they do adds a step, at any instant. */
  lemma {:induction false} FlushesOnlyLose(o: Oracle, w: World, spec: TunnelSpec, commands: seq<Command>)
    requires (forall c :: c in commands ==> IsFlush(c)) && AbsentFrom(spec, LinuxPlan(spec), w.machine, 0)
    ensures var (r, w') := BestEffort(o, w, commands);
            && w.log <= w'.log && AbsentFrom(spec, LinuxPlan(spec), w'.machine, 0)
            && (Clean(spec, w.machine) ==> Clean(spec, w'.machine) && CleanSince(spec, w', |w.log|))
            && (r.Err? ==> r == Err(Spawn))
    decreases |commands|
  {
    hide Effect, Present, TidyFor;
    if commands != [] {
      var (r, w1) := Run(o, w, commands[0]);
      assert commands[0] in commands && forall c :: c in commands[1..] ==> c in commands;
      FlushLoses(spec, w.machine, commands[0]);
      MutationRun(o, w, commands[0]);
      if !r.SpawnError? {
        FlushesOnlyLose(o, w1, spec, commands[1..]);
      }
    }
  }

  ghost predicate CleanSince(spec: TunnelSpec, w: World, base: nat) {
    forall i :: base <= i < |w.log| ==> Clean(spec, w.log[i].machine)
  }

  lemma CleanProtects(spec: TunnelSpec, m: Machine, f: Family)
    requires Clean(spec, m) && Covers(spec, f)
    ensures forall k :: !Present(spec, m, Step(f, k))
    ensures Protected(spec, m, f)
  {
    var plan := LinuxPlan(spec);
    var b := PlanIndex(spec, f);
    forall k ensures !Present(spec, m, Step(f, k)) {
      assert Step(f, k) == plan[b..b + 4][Rank(k)] == plan[b + Rank(k)];
    }
  }

  /**
    From a clean machine, under any runner and counting the flush: protected after every command, a working
    tunnel on `Ok`, and a clean machine again on every error but `RollbackFailed`.
   */
  lemma ManagedInstallFromClean(o: Oracle, w: World, spec: TunnelSpec)
    requires Clean(spec, w.machine)
    ensures var (r, w') := ManagedInstall(o, w, spec);
            && w.log <= w'.log && ProtectedSince(spec, w', |w.log|)
            && (r.Ok? ==> forall f :: Covers(spec, f) ==> VerdictOf(spec, w'.machine, f) == Via(spec.device))
            && (r.Err? && !r.error.RollbackFailed? ==> Clean(spec, w'.machine))
            && (forall f :: Covers(spec, f) ==> Protected(spec, w'.machine, f))
  {
    hide Install, TidyFor, Present, VerdictOf;
    var (r, w1) := BestEffort(o, w, PreInstallCleanup(spec));
    CleanupIsFlushes(spec);
    FlushesOnlyLose(o, w, spec, PreInstallCleanup(spec));
    forall m: Machine, f | Clean(spec, m) && Covers(spec, f) ensures Protected(spec, m, f) {
      CleanProtects(spec, m, f);
    }
    if r.Ok? {
      InstallFailClosed(o, w1, spec);
      InstallExtends(o, w1, spec);
    }
  }

  lemma InstallExtends(o: Oracle, w: World, spec: TunnelSpec)
    requires Clean(spec, w.machine)
    ensures w.log <= Install(o, w, spec, LinuxPlan(spec), 0).1.log
  {
    hide Install, TidyFor, Present;
    LinuxPlanOrdered(spec);
    InstallClosed(o, w, spec, LinuxPlan(spec), 0);
  }

  lemma ManagedOkStands(o: Oracle, w: World, spec: TunnelSpec)
    ensures var (r, w') := ManagedInstall(o, w, spec);
            r.Ok? ==> PresentTo(spec, LinuxPlan(spec), w'.machine, |LinuxPlan(spec)|)
  {
    hide Install, Present, BestEffort;
    LinuxPlanOrdered(spec);
    var reached := InstallFromAnywhere(o, BestEffort(o, w, PreInstallCleanup(spec)).1, spec, LinuxPlan(spec), 0);
  }

  lemma ManagedInstallKeepsTidy(o: Oracle, w: World, spec: TunnelSpec)
    requires Clean(spec, w.machine)
    ensures var (r, w') := ManagedInstall(o, w, spec);
            && TidyFor(spec, w'.machine)
            && (r.Ok? ==> PresentTo(spec, LinuxPlan(spec), w'.machine, |LinuxPlan(spec)|))
  {
    hide Install, TidyFor, Present;
    var (r, w1) := BestEffort(o, w, PreInstallCleanup(spec));
    CleanupIsFlushes(spec);
    FlushesOnlyLose(o, w, spec, PreInstallCleanup(spec));
    if r.Ok? {
      LinuxPlanOrdered(spec);
      InstallClosed(o, w1, spec, LinuxPlan(spec), 0);
      InstallTidy(o, w1, spec, LinuxPlan(spec), 0);
    }
  }

  /** The promise the manager makes about `m`, for every runner: an error other than `RollbackFailed` leaves nothing. */
  ghost predicate ManagedErrorsLeaveNothing(spec: TunnelSpec, m: Machine) {
    forall o: Oracle, log: seq<Entry> ::
      var (r, w') := ManagedInstall(o, World(m, log), spec);
      r.Err? && !r.error.RollbackFailed? ==> AbsentFrom(spec, LinuxPlan(spec), w'.machine, 0)
  }

  /** A runner that cannot start its very first command, and does nothing. */
  function CannotStart(t: nat): Response { Response(false, SpawnError, SpawnError) }

  lemma CannotStartChangesNothing(spec: TunnelSpec, m: Machine)
    ensures var (r, w') := ManagedInstall(CannotStart, World(m, []), spec);
            r == Err(Spawn) && w'.machine == m
  {
    assert PreInstallCleanup(spec)[0] == BackstopFlush(V4);
  }

  /** A stale rule and a flush that cannot be started: a plain error, the rule still standing, the address on `main`. */
  lemma ManagedErrorOverResidue()
    ensures var (r, w') := ManagedInstall(CannotStart, World(StaleMachine(), []), DemoSpec());
            && r == Err(Spawn)
            && Present(DemoSpec(), w'.machine, Step(V4, PolicyRuleStep))
            && VerdictOf(DemoSpec(), w'.machine, V4) == Main
  {
    CannotStartChangesNothing(DemoSpec(), StaleMachine());
  }

  /** The manager's promise holds for every runner exactly on the machines where nothing of the policy stands yet. */
  lemma ManagedErrorsLeaveNothingIff(spec: TunnelSpec, m: Machine)
    ensures ManagedErrorsLeaveNothing(spec, m) <==> AbsentFrom(spec, LinuxPlan(spec), m, 0)
  {
    hide Install, Present, BestEffort, AbsentFrom;
    var plan := LinuxPlan(spec);
    LinuxPlanOrdered(spec);
    if AbsentFrom(spec, plan, m, 0) {
      forall o: Oracle, log: seq<Entry>
        ensures var (r, w') := ManagedInstall(o, World(m, log), spec);
                r.Err? && !r.error.RollbackFailed? ==> AbsentFrom(spec, plan, w'.machine, 0)
      {
        CleanupIsFlushes(spec);
        FlushesOnlyLose(o, World(m, log), spec, PreInstallCleanup(spec));
        var w1 := BestEffort(o, World(m, log), PreInstallCleanup(spec)).1;
        var reached := CleanErrorCondition(o, w1, spec, plan);
        AbsentLater(spec, plan, w1.machine, reached);
      }
    } else {
      CannotStartChangesNothing(spec, m);
    }
  }

  lemma AbsentLater(spec: TunnelSpec, plan: seq<Step>, m: Machine, n: nat)
    requires AbsentFrom(spec, plan, m, 0)
    ensures AbsentFrom(spec, plan, m, n)
  {
  }
}
