/**
  Ordered installation, teardown and re-assertion of tunnel policy, as functions from an arbitrary
  runner (an oracle) and a machine to a result and the log of every command issued.

  The runner is adversarial: a mutating command may take effect or not and may report anything,
  independently. A probe may fail to read; when it reads, it tells the truth.
 */
module Plan {
  import opened Kernel

  datatype StepKind = Backstop | Floor | PolicyRuleStep | TunnelRouteStep

  function Rank(k: StepKind): nat {
    match k
    case Backstop => 0
    case Floor => 1
    case PolicyRuleStep => 2
    case TunnelRouteStep => 3
  }

  /** One address per family; `v6` is meaningful only when the tunnel carries IPv6. */
  datatype TunnelSpec = TunnelSpec(device: string, v4: Addr, v6: Addr, hasV6: bool) {
    function AddrOf(f: Family): Addr {
      if f.V4? then v4 else v6
    }
  }

  datatype Step = Step(family: Family, kind: StepKind)

  datatype Command =
    | RuleAdd(family: Family, rule: Rule)
    | RuleDel(family: Family, rule: Rule)
    | RouteAdd(family: Family, route: Route)
    | RouteDel(family: Family, route: Route)
    | BackstopFlush(family: Family)
    | RuleFlush(family: Family)
    | TableFlush(family: Family)
    | RuleShow(family: Family)
    | TableShow(family: Family)

  predicate IsProbe(c: Command) { c.RuleShow? || c.TableShow? }

  datatype PolicyError =
    | Ordering
    | Spawn
    | CommandFailed(what: string)
    | Verification
    | RollbackFailed(cause: PolicyError, rollback: PolicyError)
    | ResidueRemains(passes: nat)

  datatype Outcome = Ok | Err(error: PolicyError)

  // ----- the Linux steps -----------------------------------------------------------------------

  predicate IsRuleStep(k: StepKind) { k.Backstop? || k.PolicyRuleStep? }

  function RuleOf(spec: TunnelSpec, s: Step): Rule
    requires IsRuleStep(s.kind)
  {
    if s.kind.Backstop? then BackstopRule(spec.AddrOf(s.family)) else PolicyRule(spec.AddrOf(s.family))
  }

  function RouteOf(spec: TunnelSpec, s: Step): Route
    requires !IsRuleStep(s.kind)
  {
    if s.kind.Floor? then FloorRoute() else TunnelRoute(spec.device)
  }

  function ApplyCommand(spec: TunnelSpec, s: Step): Command {
    if IsRuleStep(s.kind) then RuleAdd(s.family, RuleOf(spec, s)) else RouteAdd(s.family, RouteOf(spec, s))
  }

  function UndoCommand(spec: TunnelSpec, s: Step): Command {
    if IsRuleStep(s.kind) then RuleDel(s.family, RuleOf(spec, s)) else RouteDel(s.family, RouteOf(spec, s))
  }

  function ProbeOf(s: Step): Command {
    if IsRuleStep(s.kind) then RuleShow(s.family) else TableShow(s.family)
  }

  function FamilySteps(f: Family): seq<Step> {
    [Step(f, Backstop), Step(f, Floor), Step(f, PolicyRuleStep), Step(f, TunnelRouteStep)]
  }

  function LinuxPlan(spec: TunnelSpec): seq<Step> {
    FamilySteps(V4) + if spec.hasV6 then FamilySteps(V6) else []
  }

  /** The ranks of one family's steps, in plan order. */
  function Ranks(steps: seq<Step>, f: Family): seq<nat> {
    if steps == [] then []
    else (if steps[0].family == f then [Rank(steps[0].kind)] else []) + Ranks(steps[1..], f)
  }

  predicate Ascending(ranks: seq<nat>) {
    forall i :: 0 <= i < |ranks| - 1 ==> ranks[i] < ranks[i + 1]
  }

  /** `Plan::new`: only adjacent ranks within a family are compared. */
  function NewPlan(steps: seq<Step>): Outcome {
    if Ascending(Ranks(steps, V4)) && Ascending(Ranks(steps, V6)) then Ok else Err(Ordering)
  }

  /** What callers rely on: any two steps of one family stand in rank order, however far apart. */
  ghost predicate Ordered(steps: seq<Step>) {
    forall i, j :: 0 <= i < j < |steps| && steps[i].family == steps[j].family
      ==> Rank(steps[i].kind) < Rank(steps[j].kind)
  }

  // ----- presence ------------------------------------------------------------------------------

  function Is<T(==)>(x: T): T -> bool { y => y == x }

  predicate Present(spec: TunnelSpec, m: Machine, s: Step) {
    if IsRuleStep(s.kind) then RuleOf(spec, s) in m.Of(s.family).rules
    else RouteOf(spec, s) in m.Of(s.family).table
  }

  function Copies(spec: TunnelSpec, m: Machine, s: Step): nat {
    if IsRuleStep(s.kind) then Count(m.Of(s.family).rules, Is(RuleOf(spec, s)))
    else Count(m.Of(s.family).table, Is(RouteOf(spec, s)))
  }

  // ----- the runner ----------------------------------------------------------------------------

  predicate IsPolicyLookup(r: Rule) { r.action == Lookup(POLICY_TABLE) }

  predicate IsBackstopPriority(r: Rule) { r.priority == BACKSTOP_PRIORITY }

  predicate MetricTaken(table: seq<Route>, metric: nat) {
    exists x :: x in table && x.metric == metric
  }

  /** What a command does to the machine when it takes effect. */
  function Effect(m: Machine, c: Command): Machine {
    var s := m.Of(c.family);
    match c
    case RuleAdd(f, r) => m.With(f, s.(rules := Insert(s.rules, r, PriorityOf)))
    case RuleDel(f, r) => m.With(f, s.(rules := RemoveFirst(s.rules, Is(r))))
    case RouteAdd(f, x) =>
      if MetricTaken(s.table, x.metric) then m else m.With(f, s.(table := Insert(s.table, x, MetricOf)))
    case RouteDel(f, x) => m.With(f, s.(table := RemoveFirst(s.table, Is(x))))
    case BackstopFlush(f) => m.With(f, s.(rules := RemoveFirst(s.rules, IsBackstopPriority)))
    case RuleFlush(f) => m.With(f, s.(rules := RemoveFirst(s.rules, IsPolicyLookup)))
    case TableFlush(f) => m.With(f, s.(table := []))
    case RuleShow(_) => m
    case TableShow(_) => m
  }

  /** `NoSuchTable` is the one failing exit that is a positive answer: table 218 was never created. */
  datatype Report = ExitZero | ExitNonZero | NoSuchTable | SpawnError

  /** `effect` and `report` answer a mutating command, `probe` answers a read. */
  datatype Response = Response(effect: bool, report: Report, probe: Report)

  type Oracle = nat -> Response

  ghost predicate Responsive(o: Oracle) {
    forall t :: o(t) == Response(true, ExitZero, ExitZero)
  }

  datatype Entry = Entry(command: Command, machine: Machine)

  datatype World = World(machine: Machine, log: seq<Entry>)

  /** Reads are truthful: a table that holds routes is never reported as missing. */
  function ProbeReport(m: Machine, c: Command, r: Report): Report {
    if r.NoSuchTable? && !(c.TableShow? && m.Of(c.family).table == []) then ExitNonZero else r
  }

  function Run(o: Oracle, w: World, c: Command): (Report, World) {
    var r := o(|w.log|);
    var m := if r.effect && !IsProbe(c) then Effect(w.machine, c) else w.machine;
    (if IsProbe(c) then ProbeReport(m, c, r.probe) else r.report, World(m, w.log + [Entry(c, m)]))
  }

  /** `Check::evaluate` for a strict check: reads back, and compares with what is wanted. */
  function Evaluate(o: Oracle, w: World, spec: TunnelSpec, s: Step, want: bool): (Outcome, World) {
    var (report, w') := Run(o, w, ProbeOf(s));
    match report
    case SpawnError => (Err(Spawn), w')
    case ExitNonZero => (Err(Verification), w')
    case NoSuchTable => (Err(Verification), w')
    case ExitZero => (if Present(spec, w'.machine, s) == want then Ok else Err(Verification), w')
  }

  // ----- install, teardown, reassert -----------------------------------------------------------

  function InstallStep(o: Oracle, w: World, spec: TunnelSpec, s: Step): (Outcome, World) {
    var (report, w') := Run(o, w, ApplyCommand(spec, s));
    match report
    case SpawnError => (Err(Spawn), w')
    case ExitNonZero => (Err(CommandFailed("install")), w')
    case NoSuchTable => (Err(CommandFailed("install")), w')
    case ExitZero => Evaluate(o, w', spec, s, true)
  }

  /** A removal that fails because the state was already gone is not an error; a failed read-back is. */
  function UndoStep(o: Oracle, w: World, spec: TunnelSpec, s: Step): (Outcome, World) {
    var (report, w') := Run(o, w, UndoCommand(spec, s));
    if report.SpawnError? then (Err(Spawn), w') else Evaluate(o, w', spec, s, false)
  }

  /** Removes `plan[n - 1]`, ..., `plan[0]`, stopping at the first removal that cannot be verified. */
  function Teardown(o: Oracle, w: World, spec: TunnelSpec, plan: seq<Step>, n: nat): (Outcome, World)
    requires n <= |plan|
    decreases n
  {
    if n == 0 then (Ok, w)
    else
      var (r, w') := UndoStep(o, w, spec, plan[n - 1]);
      if r.Err? then (r, w') else Teardown(o, w', spec, plan, n - 1)
  }

  /** Installs `plan[i..]`; a failing step rolls back everything up to and including itself. */
  function Install(o: Oracle, w: World, spec: TunnelSpec, plan: seq<Step>, i: nat): (Outcome, World)
    requires i <= |plan|
    decreases |plan| - i
  {
    if i == |plan| then (Ok, w)
    else
      var (r, w1) := InstallStep(o, w, spec, plan[i]);
      if r.Ok? then Install(o, w1, spec, plan, i + 1)
      else
        var (rollback, w2) := Teardown(o, w1, spec, plan, i + 1);
        if rollback.Ok? then (r, w2) else (Err(RollbackFailed(r.error, rollback.error)), w2)
  }

  datatype Reassertion = Reassertion(restored: seq<StepKind>, failed: seq<StepKind>) {
    predicate IsQuiet() { restored == [] && failed == [] }
  }

  datatype Treatment = Standing | Restored | Failed

  /** Probe first; apply only what does not read back. */
  function ReassertStep(o: Oracle, w: World, spec: TunnelSpec, s: Step): (Treatment, World) {
    var (standing, w1) := Evaluate(o, w, spec, s, true);
    if standing.Ok? then (Standing, w1)
    else
      var (r, w2) := InstallStep(o, w1, spec, s);
      (if r.Ok? then Restored else Failed, w2)
  }

  function Tally(acc: Reassertion, k: StepKind, t: Treatment): Reassertion {
    match t
    case Standing => acc
    case Restored => acc.(restored := acc.restored + [k])
    case Failed => acc.(failed := acc.failed + [k])
  }

  /** One forward pass over `plan[i..]`. */
  function Reassert(o: Oracle, w: World, spec: TunnelSpec, plan: seq<Step>, i: nat, acc: Reassertion)
    : (Reassertion, World)
    requires i <= |plan|
    decreases |plan| - i
  {
    if i == |plan| then (acc, w)
    else
      var (t, w') := ReassertStep(o, w, spec, plan[i]);
      Reassert(o, w', spec, plan, i + 1, Tally(acc, plan[i].kind, t))
  }
}
