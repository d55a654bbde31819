/**
  A whole session under attack by other network software: between passes of re-assertion anyone may take steps of
  the policy away, at most one from each family, and rearrange their own rules; then a pass runs.
 */
module Lifetime {
  import opened Kernel
  import opened Plan
  import opened PlanSafety
  import opened Reassertion

  /** What the machine is when the next pass begins, and the runner that pass gets. */
  datatype Round = Round(edited: Machine, runner: Oracle)

  function Pass(spec: TunnelSpec, r: Round): (Plan.Reassertion, World) {
    Reassert(r.runner, World(r.edited, []), spec, LinuxPlan(spec), 0, Plan.Reassertion([], []))
  }

  /** From `m` to `m'`, each covered family lost one step at most, and the machine is still one we can govern. */
  ghost predicate Edited(spec: TunnelSpec, m: Machine, m': Machine) {
    && TidyFor(spec, m')
    && forall f :: Covers(spec, f) ==> exists gone :: LostAtMost(spec, m, m', f, gone)
  }

  ghost predicate LostAtMost(spec: TunnelSpec, m: Machine, m': Machine, f: Family, gone: StepKind) {
    forall k :: k != gone && Present(spec, m, Step(f, k)) ==> Present(spec, m', Step(f, k))
  }

  /** A session from `m` on: every pass but the last put everything back, under whatever runner it had. */
  ghost predicate Lives(spec: TunnelSpec, m: Machine, rounds: seq<Round>)
    decreases |rounds|
  {
    rounds == [] ||
    (&& Edited(spec, m, rounds[0].edited)
     && (|rounds| > 1 ==> Pass(spec, rounds[0]).0.failed == [])
     && Lives(spec, Pass(spec, rounds[0]).1.machine, rounds[1..]))
  }

  /** Every machine there was: after each edit, and after each command of each pass. */
  ghost predicate Saw(spec: TunnelSpec, rounds: seq<Round>, m: Machine) {
    exists i, j :: 0 <= i < |rounds| && SawIn(spec, rounds[i], m, j)
  }

  ghost predicate SawIn(spec: TunnelSpec, r: Round, m: Machine, j: int) {
    var log := Pass(spec, r).1.log;
    (j == -1 && m == r.edited) || (0 <= j < |log| && m == log[j].machine)
  }

  ghost predicate Whole(spec: TunnelSpec, m: Machine) {
    TidyFor(spec, m) && forall f, k :: Covers(spec, f) ==> Present(spec, m, Step(f, k))
  }

  ghost predicate OffMain(spec: TunnelSpec, m: Machine) {
    forall f :: Covers(spec, f) ==> VerdictOf(spec, m, f) != Main
  }

  lemma StandingIsWhole(spec: TunnelSpec, m: Machine)
    requires TidyFor(spec, m) && PresentTo(spec, LinuxPlan(spec), m, |LinuxPlan(spec)|)
    ensures Whole(spec, m)
  {
    var plan := LinuxPlan(spec);
    forall f, k | Covers(spec, f) ensures Present(spec, m, Step(f, k)) {
      var b := PlanIndex(spec, f);
      assert Step(f, k) == plan[b..b + 4][Rank(k)] == plan[b + Rank(k)];
    }
  }

  lemma EditIsCovered(spec: TunnelSpec, m: Machine, m': Machine)
    requires Whole(spec, m) && Edited(spec, m, m')
    ensures OffMain(spec, m')
  {
    hide TidyFor, Present, VerdictOf;
    forall f | Covers(spec, f) ensures VerdictOf(spec, m', f) != Main {
      var gone :| LostAtMost(spec, m, m', f, gone);
      AnySingleDeletionIsCovered(spec, m', f, gone);
    }
  }

  lemma {:induction false} PassKeepsTidy(
    o: Oracle, w: World, spec: TunnelSpec, plan: seq<Step>, i: nat, acc: Plan.Reassertion)
    requires i <= |plan| && TidyFor(spec, w.machine)
    ensures TidyFor(spec, Reassert(o, w, spec, plan, i, acc).1.machine)
    decreases |plan| - i
  {
    hide TidyFor, InstallStep;
    if i < |plan| {
      var (standing, w1) := Evaluate(o, w, spec, plan[i], true);
      EvaluateRun(o, w, spec, plan[i], true);
      StepsKeepTidy(o, w1, spec, plan[i]);
      var (t, w2) := ReassertStep(o, w, spec, plan[i]);
      PassKeepsTidy(o, w2, spec, plan, i + 1, Tally(acc, plan[i].kind, t));
    }
  }

  /** One round: off `main` after the edit and after every command, and whole again if nothing was reported failed. */
  lemma RoundHolds(spec: TunnelSpec, m: Machine, r: Round)
    requires Whole(spec, m) && Edited(spec, m, r.edited)
    ensures forall x, j :: SawIn(spec, r, x, j) ==> OffMain(spec, x)
    ensures Pass(spec, r).0.failed == [] ==> Whole(spec, Pass(spec, r).1.machine)
  {
    hide TidyFor, Present, VerdictOf, Reassert, Whole, PresentTo;
    var w, plan, none := World(r.edited, []), LinuxPlan(spec), Plan.Reassertion([], []);
    EditIsCovered(spec, m, r.edited);
    ReassertNeverExposes(r.runner, w, spec, plan);
    LinuxPlanOrdered(spec);
    assert PresentTo(spec, plan, r.edited, 0) by { NothingYet(spec, plan, r.edited); }
    NoFailureMeansAllStand(r.runner, w, spec, plan, 0, none);
    PassKeepsTidy(r.runner, w, spec, plan, 0, none);
    if Pass(spec, r).0.failed == [] {
      StandingIsWhole(spec, Pass(spec, r).1.machine);
    }
  }

  lemma NothingYet(spec: TunnelSpec, plan: seq<Step>, m: Machine)
    ensures PresentTo(spec, plan, m, 0)
  {
  }

  /**
    Over a whole session, however long and under any runners, the tun address is never looked up in `main`, at any
    instant, as long as no pass but the last reports a failure.
   */
  lemma {:induction false} SessionStaysOffMain(spec: TunnelSpec, m: Machine, rounds: seq<Round>)
    requires Whole(spec, m) && Lives(spec, m, rounds)
    ensures forall x :: Saw(spec, rounds, x) ==> OffMain(spec, x)
    decreases |rounds|
  {
    hide Whole, OffMain, Edited, SawIn, Pass;
    if rounds != [] {
      var rest := rounds[1..];
      RoundHolds(spec, m, rounds[0]);
      if rest != [] {
        SessionStaysOffMain(spec, Pass(spec, rounds[0]).1.machine, rest);
      }
      forall x | Saw(spec, rounds, x) ensures OffMain(spec, x) {
        var i, j :| 0 <= i < |rounds| && SawIn(spec, rounds[i], x, j);
        if i > 0 {
          assert rest[i - 1] == rounds[i];
          assert Saw(spec, rest, x);
        }
      }
    }
  }
}
