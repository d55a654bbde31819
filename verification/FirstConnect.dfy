/** When an attempt comes up, exactly: one that nobody disturbs, and the first one on a clean machine. */
module FirstConnect {
  import opened Kernel
  import opened Plan
  import opened PlanSafety
  import opened PolicyManager
  import Reconcile
  import PlanVerdicts
  import opened SessionCell
  import opened SessionMoves
  import opened ConnectRun

  /**
    An attempt that has claimed the slot and that nobody disturbs comes up if and only if nothing outside fails, the
    manager's install succeeds, and nobody announced `Connected` before the attempt announced `Authenticating`; it then
    ends `Connected`.
   */
  lemma UndisturbedComesUpIff(
    o: Oracle, spec: TunnelSpec, fates: Fates, early: seq<CellOp>, late: seq<CellOp>, found: World)
    requires Undisturbed(early) && Undisturbed(late)
    ensures var a := RunConnect(o, spec, fates, Connecting, early, late, found);
            && (a.up <==>
                  && fates == Fates(true, true, true, true) && ManagedInstall(o, found, spec).0 == Ok
                  && Advance(Connected) !in early)
            && (a.up ==> a.cell == Connected)
  {
    hide ManagedInstall, RunConnect, ApplyAll, Undisturbed;
    ComesUpIff(o, spec, fates, Connecting, early, late, found);
    UndisturbedRun(Connecting, early);
    ApplyAllSnoc(Connecting, early, Advance(Authenticating));
    ApplyAllConcat(Connecting, early + [Advance(Authenticating)], late);
    UndisturbedRun(Authenticating, late);
  }

  /**
    A first connect, on a machine with nothing of ours: it comes up if and only if nothing outside the policy engine
    fails, every flush could be started, whatever it found to delete, and every step's command acted, exited zero and
    could be read back.
   */
  lemma FirstConnectIff(
    o: Oracle, spec: TunnelSpec, fates: Fates, early: seq<CellOp>, late: seq<CellOp>, found: World)
    requires Undisturbed(early) && Undisturbed(late) && Advance(Connected) !in early && Clean(spec, found.machine)
    ensures var flushes, n := |PreInstallCleanup(spec)|, |found.log|;
            RunConnect(o, spec, fates, Connecting, early, late, found).up <==>
              && fates == Fates(true, true, true, true)
              && Reconcile.Startable(o, n, flushes) && PlanVerdicts.AllWork(o, n + flushes, |LinuxPlan(spec)|)
  {
    hide ManagedInstall, RunConnect, Undisturbed, Clean, PreInstallCleanup, LinuxPlan, Reconcile.Startable,
      PlanVerdicts.AllWork;
    UndisturbedComesUpIff(o, spec, fates, early, late, found);
    PlanVerdicts.ManagedInstallOkIff(o, found, spec);
  }
}
