/**
  The instants of the manager's install that its own cleanup opens: the backstop is flushed first, so residue
  of a dead session is, for a moment, not fail-closed. When that happens, exactly.
 */
module FlushWindow {
  import opened Kernel
  import opened Plan
  import opened PlanSafety
  import opened PlanReturns
  import opened Reconcile
  import opened PolicyManager

  /** Something of ours stands, and yet the tun address is looked up in `main`. */
  ghost predicate Exposed(spec: TunnelSpec, m: Machine, f: Family) {
    (exists k :: Present(spec, m, Step(f, k))) && VerdictOf(spec, m, f) == Main
  }

  lemma ProtectedIsNotExposed(spec: TunnelSpec, m: Machine, f: Family)
    requires Protected(spec, m, f)
    ensures !Exposed(spec, m, f)
  {
  }

  /** A rule the walk for `addr` passes over once our own are set aside. */
  predicate PassedOver(r: Rule, addr: Addr) {
    Ours(r, addr) || !Matches(r, addr) || r.action == Lookup(LOCAL_TABLE)
  }

  lemma {:induction false} RemovalKeepsBare(rules: seq<Rule>, p: Rule -> bool, addr: Addr)
    requires forall r :: r in rules && p(r) ==> PassedOver(r, addr)
    ensures Walk(Others(RemoveFirst(rules, p), addr), [], addr) == Walk(Others(rules, addr), [], addr)
  {
    if rules != [] {
      var head, tail := rules[0], rules[1..];
      assert head in rules && forall r :: r in tail ==> r in rules;
      var rest := Others(tail, addr);
      assert !Ours(head, addr) ==> Others(rules, addr) == [head] + rest && ([head] + rest)[1..] == rest;
      if !p(head) {
        RemovalKeepsBare(tail, p, addr);
        var removed := RemoveFirst(tail, p);
        var left := Others(removed, addr);
        assert ([head] + removed)[1..] == removed;
        assert !Ours(head, addr) ==> Others([head] + removed, addr) == [head] + left && ([head] + left)[1..] == left;
      }
    }
  }

  /** One family during its own flush: nothing done, backstop gone, rule gone too, table empty. */
  function Phase(s: Stack, n: nat): Stack {
    var s1 := s.(rules := RemoveFirst(s.rules, IsBackstopPriority));
    var s2 := s1.(rules := RemoveFirst(s1.rules, IsPolicyLookup));
    if n == 0 then s else if n == 1 then s1 else if n == 2 then s2 else s2.(table := [])
  }

  /** Which phase of its own flush family `f` is in after `n` commands of the cleanup. */
  function PhaseAfter(f: Family, n: nat): nat {
    if f.V4? then n else if n < 3 then 0 else n - 3
  }

  lemma PhaseStep(m: Machine, f: Family, s: Stack, n: nat)
    requires n < 3 && m.Of(f) == Phase(s, n)
    ensures var m' := Effect(m, FlushesFor(f)[n]);
            m'.Of(f) == Phase(s, n + 1) && forall g :: g != f ==> m'.Of(g) == m.Of(g)
  {
  }

  lemma ApplyOneMore(m: Machine, commands: seq<Command>, n: nat)
    requires n < |commands|
    ensures Apply(m, commands[..n + 1]) == Effect(Apply(m, commands[..n]), commands[n])
  {
    assert commands[..n + 1] == commands[..n] + [commands[n]];
    ApplyConcat(m, commands[..n], [commands[n]]);
    hide Effect;
    assert Apply(Effect(Apply(m, commands[..n]), commands[n]), []) == Effect(Apply(m, commands[..n]), commands[n]);
  }

  lemma {:induction false} PhasesOf(spec: TunnelSpec, m: Machine, f: Family, n: nat)
    requires Covers(spec, f) && n <= |PreInstallCleanup(spec)|
    ensures Apply(m, PreInstallCleanup(spec)[..n]).Of(f) == Phase(m.Of(f), PhaseAfter(f, n))
    decreases n
  {
    var all := PreInstallCleanup(spec);
    if n == 0 {
      assert all[..0] == [];
    } else {
      hide Phase, Apply, Effect;
      var before, g := Apply(m, all[..n - 1]), if n <= 3 then V4 else V6;
      assert all[n - 1] == FlushesFor(g)[(n - 1) % 3];
      ApplyOneMore(m, all, n - 1);
      PhasesOf(spec, m, f, n - 1);
      PhasesOf(spec, m, g, n - 1);
      PhaseStep(before, g, m.Of(g), (n - 1) % 3);
    }
  }

  lemma GoneAfterRemoval<T>(s: seq<T>, p: T -> bool)
    requires Count(s, p) <= 1
    ensures forall x :: x in RemoveFirst(s, p) <==> x in s && !p(x)
  {
    CountLess(s, p);
    CountPositive(RemoveFirst(s, p), p);
    RemoveMembers(s, p);
  }

  lemma PhaseHolds(s: Stack, addr: Addr, device: string, n: nat)
    requires Tidy(s, addr, device) && Need(s) <= 1
    ensures var t := Phase(s, n);
            && Tidy(t, addr, device) && Unprotected(t, addr) == Unprotected(s, addr)
            && (BackstopRule(addr) in t.rules <==> BackstopRule(addr) in s.rules && n == 0)
            && (PolicyRule(addr) in t.rules <==> PolicyRule(addr) in s.rules && n <= 1)
            && t.table == if n <= 2 then s.table else []
  {
    hide Count, Walk, Others;
    var r1 := RemoveFirst(s.rules, IsBackstopPriority);
    GoneAfterRemoval(s.rules, IsBackstopPriority);
    RemoveSorted(s.rules, IsBackstopPriority, PriorityOf);
    RemovalKeepsBare(s.rules, IsBackstopPriority, addr);
    assert Count(r1, IsPolicyLookup) <= 1 by {
      RemovalKeepsCount(s.rules, IsBackstopPriority, IsPolicyLookup);
    }
    GoneAfterRemoval(r1, IsPolicyLookup);
    RemoveSorted(r1, IsPolicyLookup, PriorityOf);
    RemovalKeepsBare(r1, IsPolicyLookup, addr);
  }

  lemma {:induction false} RemovalKeepsCount<T>(s: seq<T>, p: T -> bool, q: T -> bool)
    ensures Count(RemoveFirst(s, p), q) <= Count(s, q)
  {
    if s != [] && !p(s[0]) {
      RemovalKeepsCount(s[1..], p, q);
      assert RemoveFirst(s, p)[1..] == RemoveFirst(s[1..], p);
    }
  }

  /** Before the flush, something other than the backstop stood, and without our policy the address is on `main`. */
  ghost predicate WillExpose(spec: TunnelSpec, m: Machine, f: Family) {
    (exists k :: k != Backstop && Present(spec, m, Step(f, k))) && Bare(spec, m, f) == Main
  }

  /** Both predicates on one family's lists. */
  lemma ExposureByLists(spec: TunnelSpec, m: Machine, f: Family)
    requires Tidy(m.Of(f), spec.AddrOf(f), spec.device)
    ensures var s, addr := m.Of(f), spec.AddrOf(f);
            && (WillExpose(spec, m, f) <==>
                  (PolicyRule(addr) in s.rules || s.table != []) && Unprotected(s, addr) == Main)
            && (Exposed(spec, m, f) <==>
                  && (PolicyRule(addr) in s.rules) != (s.table != [])
                  && BackstopRule(addr) !in s.rules && Unprotected(s, addr) == Main)
  {
    var s, addr := m.Of(f), spec.AddrOf(f);
    LookupByPresence(s, addr, spec.device);
    if s.table != [] {
      TableHead(s, addr, spec.device);
    }
    hide Tidy, Unprotected, LookupFrom, HopVerdict;
    assert Present(spec, m, Step(f, Backstop)) <==> BackstopRule(addr) in s.rules;
    assert Present(spec, m, Step(f, PolicyRuleStep)) <==> PolicyRule(addr) in s.rules;
    assert Present(spec, m, Step(f, Floor)) <==> FloorRoute() in s.table;
    assert Present(spec, m, Step(f, TunnelRouteStep)) <==> TunnelRoute(spec.device) in s.table;
  }

  lemma PhasesExpose(spec: TunnelSpec, m: Machine, f: Family, m': Machine, n: nat)
    requires TidyFor(spec, m) && Covers(spec, f) && Need(m.Of(f)) <= 1 && m'.Of(f) == Phase(m.Of(f), n)
    ensures Exposed(spec, m', f) ==> WillExpose(spec, m, f)
    ensures WillExpose(spec, m, f) && n == (if m.Of(f).table == [] then 1 else 2) ==> Exposed(spec, m', f)
  {
    hide Tidy, Unprotected, Phase, Need, Exposed, WillExpose;
    PhaseHolds(m.Of(f), spec.AddrOf(f), spec.device, n);
    ExposureByLists(spec, m, f);
    ExposureByLists(spec, m', f);
  }

  lemma {:induction false} FlushLog(o: Oracle, w: World, commands: seq<Command>, n: nat)
    requires Acts(o, |w.log|, |commands|) && (forall c :: c in commands ==> !IsProbe(c)) && n < |commands|
    ensures var w' := BestEffort(o, w, commands).1;
            && |w'.log| == |w.log| + |commands|
            && w'.log[|w.log| + n].machine == Apply(w.machine, commands[..n + 1])
    decreases |commands|
  {
    hide Effect;
    var w1 := Run(o, w, commands[0]).1;
    assert commands[0] in commands;
    assert commands[..n + 1][0] == commands[0] && commands[..n + 1][1..] == commands[1..][..n];
    BestEffortApplies(o, w1, commands[1..]);
    if n > 0 {
      FlushLog(o, w1, commands[1..], n - 1);
    } else {
      assert commands[1..][..0] == [];
      BestEffortExtends(o, w1, commands[1..]);
    }
  }

  lemma {:induction false} BestEffortExtends(o: Oracle, w: World, commands: seq<Command>)
    ensures w.log <= BestEffort(o, w, commands).1.log
    decreases |commands|
  {
    if commands != [] && !Run(o, w, commands[0]).0.SpawnError? {
      BestEffortExtends(o, Run(o, w, commands[0]).1, commands[1..]);
    }
  }

  /** At most one copy of each rule, in a machine our policy can govern. */
  ghost predicate TidyResidue(spec: TunnelSpec, m: Machine) {
    TidyFor(spec, m) && forall f :: Covers(spec, f) ==> Need(m.Of(f)) <= 1
  }

  lemma TidyResidueSwept(spec: TunnelSpec, m: Machine)
    requires TidyResidue(spec, m)
    ensures Clean(spec, Apply(m, PreInstallCleanup(spec)))
  {
    hide Phase, Apply, Tidy;
    var all, plan := PreInstallCleanup(spec), LinuxPlan(spec);
    var m' := Apply(m, all);
    assert all[..|all|] == all;
    forall f | Covers(spec, f)
      ensures Tidy(m'.Of(f), spec.AddrOf(f), spec.device) && forall k :: !Present(spec, m', Step(f, k))
    {
      PhasesOf(spec, m, f, |all|);
      PhaseHolds(m.Of(f), spec.AddrOf(f), spec.device, PhaseAfter(f, |all|));
    }
    assert Tidy(m'.Of(V4), spec.v4, spec.device);
    assert spec.hasV6 ==> Tidy(m'.Of(V6), spec.v6, spec.device);
    forall i | 0 <= i < |plan| ensures !Present(spec, m', plan[i]) {
      assert Covers(spec, plan[i].family) && plan[i] == Step(plan[i].family, plan[i].kind);
    }
  }

  ghost predicate ExposedSince(spec: TunnelSpec, w: World, base: nat, f: Family) {
    exists i :: base <= i < |w.log| && Exposed(spec, w.log[i].machine, f)
  }

  /**
    What the flush costs. The cleanup takes the backstop away first, so over residue the manager's install is
    not fail-closed at every instant: with a flush that works, and any runner after it, some instant has a step
    of family `f` standing and its address on `main` exactly when something other than the backstop stood
    beforehand and nothing foreign refuses the address.
   */
  lemma ManagedInstallExposesIff(o: Oracle, w: World, spec: TunnelSpec, f: Family)
    requires TidyResidue(spec, w.machine) && Covers(spec, f)
    requires Acts(o, |w.log|, |PreInstallCleanup(spec)|)
    ensures ExposedSince(spec, ManagedInstall(o, w, spec).1, |w.log|, f) <==> WillExpose(spec, w.machine, f)
  {
    hide Install, Exposed, WillExpose, Apply, Clean, Phase, BestEffort, TidyFor;
    var all := PreInstallCleanup(spec);
    var w1 := BestEffort(o, w, all).1;
    var w' := ManagedInstall(o, w, spec).1;
    BestEffortApplies(o, w, all);
    TidyResidueSwept(spec, w.machine);
    InstallFailClosed(o, w1, spec);
    InstallExtends(o, w1, spec);
    forall i: nat | |w.log| <= i < |w'.log| && Exposed(spec, w'.log[i].machine, f)
      ensures WillExpose(spec, w.machine, f)
    {
      if i < |w1.log| {
        FlushInstant(o, w, spec, f, i - |w.log|);
      } else {
        ProtectedIsNotExposed(spec, w'.log[i].machine, f);
      }
    }
    if WillExpose(spec, w.machine, f) {
      var n := (if f.V4? then 0 else 3) + if w.machine.Of(f).table == [] then 0 else 1;
      FlushInstant(o, w, spec, f, n);
      assert Exposed(spec, w'.log[|w.log| + n].machine, f);
    }
  }

  lemma FlushInstant(o: Oracle, w: World, spec: TunnelSpec, f: Family, n: nat)
    requires TidyResidue(spec, w.machine) && Covers(spec, f) && n < |PreInstallCleanup(spec)|
    requires Acts(o, |w.log|, |PreInstallCleanup(spec)|)
    ensures var w1 := BestEffort(o, w, PreInstallCleanup(spec)).1;
            && |w1.log| == |w.log| + |PreInstallCleanup(spec)|
            && (Exposed(spec, w1.log[|w.log| + n].machine, f) ==> WillExpose(spec, w.machine, f))
            && (WillExpose(spec, w.machine, f) && PhaseAfter(f, n + 1) == (if w.machine.Of(f).table == []
               then 1 else 2) ==>
                  Exposed(spec, w1.log[|w.log| + n].machine, f))
  {
    hide Exposed, WillExpose, Apply, Phase, BestEffort, TidyFor;
    var all := PreInstallCleanup(spec);
    FlushLog(o, w, all, n);
    PhasesOf(spec, w.machine, f, n + 1);
    PhasesExpose(spec, w.machine, f, Apply(w.machine, all[..n + 1]), PhaseAfter(f, n + 1));
  }

  /** One dead session's whole policy. */
  function FullMachine(): Machine {
    Machine(Stack([PolicyRule(7), BackstopRule(7)], [TunnelRoute("tun0"), FloorRoute()]), Stack([], []))
  }

  lemma FullMachineIsResidue()
    ensures OneSessionsResidue(DemoSpec(), FullMachine()) && TidyResidue(DemoSpec(), FullMachine())
  {
    var s := FullMachine().v4;
    var r := s.rules[1..];
    assert r == [BackstopRule(7)] && r[1..] == [] && s.table[1..] == [FloorRoute()] && s.table[1..][1..] == [];
    assert Count(r[1..], IsBackstopPriority) == 0 && Count(r[1..], IsPolicyLookup) == 0;
    assert Sorted(r, PriorityOf) && Sorted(s.table[1..], MetricOf);
  }

  /** Every command working: after the second flush the floor still stands and the address is on `main`. */
  lemma FlushOpensAWindow(o: Oracle)
    requires Responsive(o)
    ensures OneSessionsResidue(DemoSpec(), FullMachine())
    ensures var w' := ManagedInstall(o, World(FullMachine(), []), DemoSpec()).1;
            && |w'.log| > 1
            && Present(DemoSpec(), w'.log[1].machine, Step(V4, Floor))
            && VerdictOf(DemoSpec(), w'.log[1].machine, V4) == Main
            && !Protected(DemoSpec(), w'.log[1].machine, V4)
  {
    hide Install, TidyResidue, OneSessionsResidue, Clean, BestEffort;
    var spec, w := DemoSpec(), World(FullMachine(), []);
    var all := PreInstallCleanup(spec);
    FullMachineIsResidue();
    BestEffortApplies(o, w, all);
    FlushLog(o, w, all, 1);
    TidyResidueSwept(spec, w.machine);
    InstallExtends(o, BestEffort(o, w, all).1, spec);
    PhasesOf(spec, w.machine, V4, 2);
    var rules := w.machine.v4.rules;
    assert rules[1..] == [BackstopRule(7)];
    assert RemoveFirst(rules, IsBackstopPriority) == [PolicyRule(7)];
  }
}
