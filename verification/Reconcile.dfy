/**
  Startup reconciliation: enumerate what a dead session left in either family, remove one copy of
  each, and read back, at most four times.
 */
module Reconcile {
  import opened Kernel
  import opened Plan

  const MAX_PASSES := 4

  datatype Listing = Listed(commands: seq<Command>) | Unreadable(error: PolicyError)

  function Stale(s: Stack, f: Family): seq<Command> {
    (if Count(s.rules, IsBackstopPriority) > 0 then [BackstopFlush(f)] else []) +
    (if Count(s.rules, IsPolicyLookup) > 0 then [RuleFlush(f)] else []) +
    (if s.table != [] then [TableFlush(f)] else [])
  }

  function ReadError(r: Report): PolicyError
    requires !r.ExitZero?
  {
    if r.SpawnError? then Spawn else CommandFailed("policy state enumeration")
  }

  /** Both reads must succeed; "nothing is there" is never assumed from a failed one. */
  function StaleForFamily(o: Oracle, w: World, f: Family): (Listing, World) {
    var (r1, w1) := Run(o, w, RuleShow(f));
    if !r1.ExitZero? then (Unreadable(ReadError(r1)), w1)
    else
      var (r2, w2) := Run(o, w1, TableShow(f));
      if r2.SpawnError? || r2.ExitNonZero? then (Unreadable(ReadError(r2)), w2)
      else (Listed(Stale(w2.machine.Of(f), f)), w2)
  }

  function StaleCleanup(o: Oracle, w: World): (Listing, World) {
    var (l4, w1) := StaleForFamily(o, w, V4);
    if l4.Unreadable? then (l4, w1)
    else
      var (l6, w2) := StaleForFamily(o, w1, V6);
      if l6.Unreadable? then (l6, w2) else (Listed(l4.commands + l6.commands), w2)
  }

  /** Removal commands run in order; a non-zero exit is tolerated, a command that cannot start is not. */
  function BestEffort(o: Oracle, w: World, commands: seq<Command>): (Outcome, World)
    decreases |commands|
  {
    if commands == [] then (Ok, w)
    else
      var (r, w') := Run(o, w, commands[0]);
      if r.SpawnError? then (Err(Spawn), w') else BestEffort(o, w', commands[1..])
  }

  /** From the `n`-th answer on, `k` commands in a row could be started, whatever they then reported. */
  ghost predicate Startable(o: Oracle, n: nat, k: nat) {
    forall t :: n <= t < n + k ==> o(t).report != SpawnError
  }

  /** And every one of them took effect, whatever it reported. */
  ghost predicate Acts(o: Oracle, n: nat, k: nat) {
    forall t :: n <= t < n + k ==> o(t).effect && o(t).report != SpawnError
  }

  /**
    The removals, without their loop: they succeed if and only if every one of them could be started, however it
    exited; they are issued in order, all of them, or up to and including the first that could not be started, and
    that is then the error.
   */
  lemma {:induction false} BestEffortOkIff(o: Oracle, w: World, commands: seq<Command>)
    requires forall c :: c in commands ==> !IsProbe(c)
    ensures var (r, w') := BestEffort(o, w, commands);
            var issued := |w'.log| - |w.log|;
            && w.log <= w'.log && issued <= |commands|
            && (forall i :: 0 <= i < issued ==> w'.log[|w.log| + i].command == commands[i])
            && (r == Ok <==> Startable(o, |w.log|, |commands|)) && (r == Ok ==> issued == |commands|)
            && (r != Ok ==>
                  && r == Err(Spawn) && issued > 0
                  && Startable(o, |w.log|, issued - 1) && o(|w'.log| - 1).report == SpawnError)
    decreases |commands|
  {
    hide Effect;
    if commands != [] {
      assert commands[0] in commands;
      var (r, w1) := Run(o, w, commands[0]);
      if r.SpawnError? {
        assert !Startable(o, |w.log|, |commands|) by {
          assert o(|w.log|).report == SpawnError;
        }
      } else {
        var (r2, w2) := BestEffort(o, w1, commands[1..]);
        BestEffortOkIff(o, w1, commands[1..]);
        assert forall i :: 0 < i < |commands| ==> commands[i] == commands[1..][i - 1];
      }
    }
  }

  datatype ReconcileReport = Reconciled(passes: nat, removed: seq<Command>) | ReconcileFailed(error: PolicyError)

  function From(o: Oracle, w: World, pass: nat, removed: seq<Command>): (ReconcileReport, World)
    requires pass <= MAX_PASSES
    decreases MAX_PASSES - pass
  {
    var (l, w1) := StaleCleanup(o, w);
    if l.Unreadable? then (ReconcileFailed(l.error), w1)
    else if l.commands == [] then (Reconciled(pass, removed), w1)
    else if pass == MAX_PASSES then (ReconcileFailed(ResidueRemains(MAX_PASSES)), w1)
    else
      var (r, w2) := BestEffort(o, w1, l.commands);
      if r.Err? then (ReconcileFailed(r.error), w2) else From(o, w2, pass + 1, removed + l.commands)
  }

  // ----- clean means clean ---------------------------------------------------------------------

  predicate FamilyClean(s: Stack) {
    Count(s.rules, IsBackstopPriority) == 0 && Count(s.rules, IsPolicyLookup) == 0 && s.table == []
  }

  predicate MachineClean(m: Machine) { FamilyClean(m.v4) && FamilyClean(m.v6) }

  lemma StaleCleanupReads(o: Oracle, w: World)
    ensures var (l, w') := StaleCleanup(o, w);
            && w'.machine == w.machine
            && (l.Listed? ==> l.commands == Stale(w.machine.v4, V4) + Stale(w.machine.v6, V6))
            && (l.Listed? ==> (l.commands == [] <==> MachineClean(w.machine)))
  {
  }

  /** Whatever the runner did, `Ok` is only ever returned for a machine read back clean. */
  lemma {:induction false} ReconciledIsClean(o: Oracle, w: World, pass: nat, removed: seq<Command>)
    requires pass <= MAX_PASSES
    ensures var (r, w') := From(o, w, pass, removed);
            r.Reconciled? ==> MachineClean(w'.machine) && pass <= r.passes <= MAX_PASSES
    decreases MAX_PASSES - pass
  {
    hide StaleCleanup, BestEffort, MachineClean;
    var (l, w1) := StaleCleanup(o, w);
    StaleCleanupReads(o, w);
    if l.Listed? && l.commands != [] && pass < MAX_PASSES {
      var (r, w2) := BestEffort(o, w1, l.commands);
      if r.Ok? {
        ReconciledIsClean(o, w2, pass + 1, removed + l.commands);
      }
    }
  }

  // ----- how many passes -----------------------------------------------------------------------

  function Max(a: nat, b: nat): nat { if a < b then b else a }

  /** The passes one family needs: its larger multiplicity, and at least one if its table holds anything. */
  function Need(s: Stack): nat {
    Max(Max(Count(s.rules, IsBackstopPriority), Count(s.rules, IsPolicyLookup)), if s.table == [] then 0 else 1)
  }

  function MachineNeed(m: Machine): nat { Max(Need(m.v4), Need(m.v6)) }

  /** Priority 18500 is ours alone, and only ever carries an `unreachable` action. */
  ghost predicate Owned(s: Stack) {
    forall r :: r in s.rules && r.priority == BACKSTOP_PRIORITY ==> r.action == Unreachable
  }

  /** What one pass leaves of a family when every removal works. */
  function Swept(s: Stack): Stack {
    Stack(RemoveFirst(RemoveFirst(s.rules, IsBackstopPriority), IsPolicyLookup), [])
  }

  lemma {:induction false} CountLess<T>(s: seq<T>, p: T -> bool)
    ensures Count(RemoveFirst(s, p), p) == if Count(s, p) > 0 then Count(s, p) - 1 else 0
  {
    RemoveCount(s, p, p);
    CountPositive(s, p);
  }

  lemma SweptNeedsOneLess(s: Stack)
    requires Owned(s)
    ensures Owned(Swept(s)) && Need(Swept(s)) == if Need(s) > 0 then Need(s) - 1 else 0
  {
    var r1 := RemoveFirst(s.rules, IsBackstopPriority);
    RemoveMembers(s.rules, IsBackstopPriority);
    RemoveMembers(r1, IsPolicyLookup);
    CountLess(s.rules, IsBackstopPriority);
    CountLess(r1, IsPolicyLookup);
    RemoveCount(s.rules, IsBackstopPriority, IsPolicyLookup);
    RemoveCount(r1, IsPolicyLookup, IsBackstopPriority);
  }

  function Apply(m: Machine, commands: seq<Command>): Machine
    decreases |commands|
  {
    if commands == [] then m else Apply(Effect(m, commands[0]), commands[1..])
  }

  lemma {:induction false} ApplyConcat(m: Machine, a: seq<Command>, b: seq<Command>)
    ensures Apply(m, a + b) == Apply(Apply(m, a), b)
    decreases |a|
  {
    hide Effect;
    if a == [] {
      assert a + b == b;
    } else {
      assert (a + b)[0] == a[0] && (a + b)[1..] == a[1..] + b;
      ApplyConcat(Effect(m, a[0]), a[1..], b);
    }
  }

  lemma {:induction false} BestEffortApplies(o: Oracle, w: World, commands: seq<Command>)
    requires Acts(o, |w.log|, |commands|) && forall c :: c in commands ==> !IsProbe(c)
    ensures var (r, w') := BestEffort(o, w, commands);
            r.Ok? && w'.machine == Apply(w.machine, commands) && |w'.log| == |w.log| + |commands|
    decreases |commands|
  {
    hide Effect;
    if commands != [] {
      assert commands[0] in commands;
      BestEffortApplies(o, Run(o, w, commands[0]).1, commands[1..]);
    }
  }

  lemma SweepRules(m: Machine, f: Family)
    requires Owned(m.Of(f))
    ensures var s := m.Of(f);
            var b := if Count(s.rules, IsBackstopPriority) > 0 then [BackstopFlush(f)] else [];
            var p := if Count(s.rules, IsPolicyLookup) > 0 then [RuleFlush(f)] else [];
            Apply(Apply(m, b), p) == m.With(f, s.(rules := Swept(s).rules))
  {
    var s := m.Of(f);
    var r1 := RemoveFirst(s.rules, IsBackstopPriority);
    RemoveCount(s.rules, IsBackstopPriority, IsPolicyLookup);
    if Count(s.rules, IsBackstopPriority) == 0 {
      CountPositive(s.rules, IsBackstopPriority);
      RemoveAbsent(s.rules, IsBackstopPriority);
    }
    if Count(s.rules, IsPolicyLookup) == 0 {
      CountPositive(r1, IsPolicyLookup);
      RemoveAbsent(r1, IsPolicyLookup);
    }
  }

  lemma SweepFamily(m: Machine, f: Family)
    requires Owned(m.Of(f))
    ensures Apply(m, Stale(m.Of(f), f)) == m.With(f, Swept(m.Of(f)))
  {
    var s := m.Of(f);
    SweepRules(m, f);
    var b := if Count(s.rules, IsBackstopPriority) > 0 then [BackstopFlush(f)] else [];
    var p := if Count(s.rules, IsPolicyLookup) > 0 then [RuleFlush(f)] else [];
    var t := if s.table != [] then [TableFlush(f)] else [];
    ApplyConcat(m, b, p);
    ApplyConcat(m, b + p, t);
    hide Count, RemoveFirst, Owned;
    assert Stale(s, f) == b + p + t;
  }

  lemma StaleIsMutating(s: Stack, f: Family)
    ensures forall c :: c in Stale(s, f) ==> !IsProbe(c)
  {
  }

  // ----- what can be read ----------------------------------------------------------------------

  /** Both reads of a family got an answer: the rules were shown, the table was shown or does not exist. */
  predicate Legible(o: Oracle, t: nat, s: Stack) {
    o(t).probe == ExitZero && (o(t + 1).probe == ExitZero || (o(t + 1).probe == NoSuchTable && s.table == []))
  }

  lemma FamilyLegibleIff(o: Oracle, w: World, f: Family)
    ensures var (l, w') := StaleForFamily(o, w, f);
            && w'.machine == w.machine
            && (l.Listed? <==> Legible(o, |w.log|, w.machine.Of(f)))
            && (l.Listed? ==> |w'.log| == |w.log| + 2 && l.commands == Stale(w.machine.Of(f), f))
            && (l.Unreadable? ==>
                  && w'.log != []
                  && l.error == if o(|w'.log| - 1).probe == SpawnError then Spawn
                                else CommandFailed("policy state enumeration"))
  {
  }

  /**
    A listing is given exactly when all four reads got an answer, a table that was never created being one; any other
    failed read is an error, told apart by whether the command could be started.
   */
  lemma LegibleIff(o: Oracle, w: World)
    ensures var (l, w') := StaleCleanup(o, w);
            && (l.Listed? <==> Legible(o, |w.log|, w.machine.v4) && Legible(o, |w.log| + 2, w.machine.v6))
            && (l.Listed? ==> |w'.log| == |w.log| + 4)
            && (l.Unreadable? ==>
                  && w'.log != []
                  && l.error == if o(|w'.log| - 1).probe == SpawnError then Spawn
                                else CommandFailed("policy state enumeration"))
  {
    hide StaleForFamily, Legible;
    var (l4, w1) := StaleForFamily(o, w, V4);
    var (l6, w2) := StaleForFamily(o, w1, V6);
    FamilyLegibleIff(o, w, V4);
    FamilyLegibleIff(o, w1, V6);
    assert l4.Listed? <==> Legible(o, |w.log|, w.machine.v4);
    assert l4.Listed? ==> (l6.Listed? <==> Legible(o, |w.log| + 2, w.machine.v6));
    assert StaleCleanup(o, w).0.Listed? <==> l4.Listed? && l6.Listed?;
  }

  /** The removals one pass asks for. */
  function Leftovers(m: Machine): seq<Command> { Stale(m.v4, V4) + Stale(m.v6, V6) }

  /** One pass whose reads are answered and whose removals act sweeps both families once. */
  lemma PassSweeps(o: Oracle, w: World)
    requires Owned(w.machine.v4) && Owned(w.machine.v6)
    requires Legible(o, |w.log|, w.machine.v4) && Legible(o, |w.log| + 2, w.machine.v6)
    requires Acts(o, |w.log| + 4, |Leftovers(w.machine)|)
    ensures var (l, w1) := StaleCleanup(o, w);
            && l == Listed(Leftovers(w.machine)) && w1.machine == w.machine
            && var (r, w2) := BestEffort(o, w1, l.commands);
               && r.Ok? && w2.machine == Machine(Swept(w.machine.v4), Swept(w.machine.v6))
               && |w2.log| == |w.log| + 4 + |Leftovers(w.machine)|
  {
    var m := w.machine;
    var (l, w1) := StaleCleanup(o, w);
    StaleCleanupReads(o, w);
    LegibleIff(o, w);
    StaleIsMutating(m.v4, V4);
    StaleIsMutating(m.v6, V6);
    hide Stale, Effect, StaleCleanup, Swept, Legible;
    BestEffortApplies(o, w1, l.commands);
    SweepFamily(m, V4);
    ApplyConcat(m, Stale(m.v4, V4), Stale(m.v6, V6));
    SweepFamily(m.With(V4, Swept(m.v4)), V6);
  }

  lemma NeedsNothingIff(s: Stack)
    ensures FamilyClean(s) <==> Need(s) == 0
  {
  }

  /** The removals of `n` passes, in order. */
  function Removals(m: Machine, n: nat): seq<Command>
    decreases n
  {
    if n == 0 then []
    else Leftovers(m) + Removals(Machine(Swept(m.v4), Swept(m.v6)), n - 1)
  }

  /**
    From the `t`-th answer on, the runner answers every read and carries out every removal of a reconciliation that has
    `passes` passes left, whatever the removals report.
   */
  ghost predicate Obliging(o: Oracle, t: nat, m: Machine, passes: nat)
    decreases passes
  {
    && Legible(o, t, m.v4) && Legible(o, t + 2, m.v6)
    && (passes > 0 && Leftovers(m) != [] ==>
          && Acts(o, t + 4, |Leftovers(m)|)
          && Obliging(o, t + 4 + |Leftovers(m)|, Machine(Swept(m.v4), Swept(m.v6)), passes - 1))
  }

  lemma {:induction false} ResponsiveObliges(o: Oracle, t: nat, m: Machine, passes: nat)
    requires Responsive(o)
    ensures Obliging(o, t, m, passes)
    decreases passes
  {
    hide Stale, Swept;
    if passes > 0 {
      ResponsiveObliges(o, t + 4 + |Leftovers(m)|, Machine(Swept(m.v4), Swept(m.v6)), passes - 1);
    }
  }

  /**
    With reads that are answered and removals that act, reconciliation succeeds exactly when no multiplicity
    exceeds the pass limit; it then reports as many passes as the largest one and exactly the
    removals those passes needed, and leaves the machine clean. Otherwise it says residue remains.
   */
  lemma {:induction false} PassCount(o: Oracle, w: World, pass: nat, removed: seq<Command>)
    requires pass <= MAX_PASSES && Owned(w.machine.v4) && Owned(w.machine.v6)
    requires Obliging(o, |w.log|, w.machine, MAX_PASSES - pass)
    ensures var (r, w') := From(o, w, pass, removed);
            var total := pass + MachineNeed(w.machine);
            && (total <= 4 ==>
                  && r == Reconciled(total, removed + Removals(w.machine, MachineNeed(w.machine)))
                  && MachineClean(w'.machine))
            && (total > 4 ==> r == ReconcileFailed(ResidueRemains(4)))
    decreases MAX_PASSES - pass
  {
    hide StaleCleanup, BestEffort, Swept, Owned, Need, FamilyClean, Stale, Legible, Acts;
    var m := w.machine;
    var (l, w1) := StaleCleanup(o, w);
    StaleCleanupReads(o, w);
    LegibleIff(o, w);
    NeedsNothingIff(m.v4);
    NeedsNothingIff(m.v6);
    assert removed + [] == removed;
    if l.commands != [] && pass < MAX_PASSES {
      PassSweeps(o, w);
      var (r, w2) := BestEffort(o, w1, l.commands);
      SweptNeedsOneLess(m.v4);
      SweptNeedsOneLess(m.v6);
      PassCount(o, w2, pass + 1, removed + l.commands);
      var more := Removals(w2.machine, MachineNeed(w2.machine));
      assert removed + l.commands + more == removed + (l.commands + more);
    }
  }
}
