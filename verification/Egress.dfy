/**
  The versioned publication of the tunnel identity. `tunnel_up` and `tunnel_down` each make two atomic
  moves: bump the shared counter, then, later and in any order with everyone else, write the slot.
  A handle carries the counter value it was issued at and is usable only while that value is live.
 */
module Egress {
  import opened Wrappers

  const U64: nat := 0x1_0000_0000_0000_0000

  datatype Kind = WentUp | WentDown

  /**
    `bumps` is every counter bump so far, in order; a call, and the handle it issues, is named by the
    number of its bump, from 1. `pending` are the calls that have bumped and not yet written the slot,
    `landed` those that have, in the order their writes landed.
   */
  datatype State = State(bumps: seq<Kind>, slot: Option<nat>, pending: seq<nat>, landed: seq<nat>)

  datatype Action = Up | Down | Write(i: nat)

  const INIT := State([], None, [], [])

  predicate Enabled(s: State, a: Action) { a.Write? ==> a.i < |s.pending| }

  function Step(s: State, a: Action): State
    requires Enabled(s, a)
  {
    match a
    case Up => State(s.bumps + [WentUp], s.slot, s.pending + [|s.bumps| + 1], s.landed)
    case Down => State(s.bumps + [WentDown], s.slot, s.pending + [|s.bumps| + 1], s.landed)
    case Write(i) =>
      var b := s.pending[i];
      State(s.bumps, if Issued(s, b) then Some(b) else None, s.pending[..i] + s.pending[i + 1..], s.landed + [b])
  }

  ghost predicate Runs(s: State, actions: seq<Action>)
    decreases |actions|
  {
    actions == [] || (Enabled(s, actions[0]) && Runs(Step(s, actions[0]), actions[1..]))
  }

  function Exec(s: State, actions: seq<Action>): State
    requires Runs(s, actions)
    decreases |actions|
  {
    if actions == [] then s else Exec(Step(s, actions[0]), actions[1..])
  }

  /** The counter is a 64-bit word; a handle remembers its value. */
  function Live(s: State): nat { |s.bumps| % U64 }

  function GenerationOf(b: nat): nat { b % U64 }

  predicate IsCurrent(s: State, b: nat) { Live(s) == GenerationOf(b) }

  /** `EgressState::current`: the slot's handle, if it is still the live one. */
  function Current(s: State): Option<nat> {
    if s.slot.Some? && IsCurrent(s, s.slot.value) then s.slot else None
  }

  predicate Issued(s: State, b: nat) { 1 <= b <= |s.bumps| && s.bumps[b - 1] == WentUp }

  ghost predicate Inv(s: State) {
    && (forall b :: b in s.pending || b in s.landed <==> 1 <= b <= |s.bumps|)
    && s.slot == (if s.landed != [] && Issued(s, s.landed[|s.landed| - 1]) then Some(s.landed[|s.landed| - 1])
       else None)
  }

  lemma StepKeepsInv(s: State, a: Action)
    requires Inv(s) && Enabled(s, a)
    ensures Inv(Step(s, a)) && s.bumps <= Step(s, a).bumps
  {
    var t := Step(s, a);
    if a.Write? {
      assert s.pending == s.pending[..a.i] + [s.pending[a.i]] + s.pending[a.i + 1..];
      assert forall b :: b in t.pending || b in t.landed <==> b in s.pending || b in s.landed;
    } else {
      assert forall b :: b in t.pending <==> b in s.pending || b == |s.bumps| + 1;
      if s.landed != [] {
        assert s.landed[|s.landed| - 1] in s.landed;
      }
    }
  }

  /** Every interleaving of any number of calls keeps every call accounted for and the slot the last write's. */
  lemma {:induction false} RunKeepsInv(s: State, actions: seq<Action>)
    requires Inv(s) && Runs(s, actions)
    ensures Inv(Exec(s, actions)) && s.bumps <= Exec(s, actions).bumps
    decreases |actions|
  {
    if actions != [] {
      StepKeepsInv(s, actions[0]);
      RunKeepsInv(Step(s, actions[0]), actions[1..]);
    }
  }

  /** Short of 2^64 bumps, the live handle is the one issued by the very last bump, and no other. */
  lemma CurrentIsLatest(s: State, b: nat)
    requires Issued(s, b) && |s.bumps| < U64
    ensures IsCurrent(s, b) <==> b == |s.bumps|
  {
  }

  /** Distinct handles, distinct generations: at most one handle is current at any instant. */
  lemma AtMostOneCurrent(s: State, b: nat, c: nat)
    requires Issued(s, b) && Issued(s, c) && |s.bumps| < U64
    ensures GenerationOf(b) == GenerationOf(c) <==> b == c
    ensures IsCurrent(s, b) && IsCurrent(s, c) ==> b == c
  {
  }

  /**
    A handle once stale is stale for good: over any run, a handle that is not current is current again
    exactly when the counter has wrapped all the way round since it was issued.
   */
  lemma StaleIsForever(s: State, actions: seq<Action>, b: nat)
    requires Inv(s) && Runs(s, actions) && Issued(s, b)
    ensures var t := Exec(s, actions);
            && Issued(t, b)
            && (IsCurrent(t, b) <==> (|t.bumps| - b) % U64 == 0)
            && (!IsCurrent(s, b) && |t.bumps| < U64 ==> !IsCurrent(t, b))
  {
    RunKeepsInv(s, actions);
    var t := Exec(s, actions);
    assert t.bumps[b - 1] == s.bumps[b - 1];
    ModDifference(|t.bumps|, b);
  }

  lemma ModDifference(x: nat, y: nat)
    requires y <= x
    ensures x % U64 == y % U64 <==> (x - y) % U64 == 0
  {
  }

  /** Whatever is handed out was issued by the last bump, and that bump was an up. */
  lemma HandedOutIsLive(actions: seq<Action>)
    requires Runs(INIT, actions) && |Exec(INIT, actions).bumps| < U64
    ensures var s := Exec(INIT, actions);
            Current(s).Some? ==> Issued(s, |s.bumps|) && Current(s).value == |s.bumps|
  {
    RunKeepsInv(INIT, actions);
    var s := Exec(INIT, actions);
    if Current(s).Some? {
      CurrentIsLatest(s, s.slot.value);
    }
  }

  /**
    After a `tunnel_down` has bumped, with no later `tunnel_up` bump, nothing is handed out and no handle
    is usable, however many slot writes are still to come and in whatever order they land.
   */
  lemma DownStrandsEverything(before: seq<Action>, after: seq<Action>)
    requires Runs(INIT, before) && Runs(Step(Exec(INIT, before), Down), after)
    requires forall a :: a in after ==> !a.Up?
    requires |Exec(Step(Exec(INIT, before), Down), after).bumps| < U64
    ensures var s := Exec(Step(Exec(INIT, before), Down), after);
            Current(s) == None && forall b :: Issued(s, b) ==> !IsCurrent(s, b)
  {
    RunKeepsInv(INIT, before);
    var d := Step(Exec(INIT, before), Down);
    StepKeepsInv(Exec(INIT, before), Down);
    RunKeepsInv(d, after);
    LastStaysDown(d, after);
    var s := Exec(d, after);
    forall b | Issued(s, b) ensures !IsCurrent(s, b) {
      CurrentIsLatest(s, b);
    }
  }

  lemma {:induction false} LastStaysDown(s: State, actions: seq<Action>)
    requires Runs(s, actions) && (forall a :: a in actions ==> !a.Up?)
    requires s.bumps != [] && s.bumps[|s.bumps| - 1] == WentDown
    ensures var t := Exec(s, actions); t.bumps != [] && t.bumps[|t.bumps| - 1] == WentDown
    decreases |actions|
  {
    if actions != [] {
      assert actions[0] in actions;
      LastStaysDown(Step(s, actions[0]), actions[1..]);
    }
  }

  predicate TunnelIsUp(s: State) { s.bumps != [] && s.bumps[|s.bumps| - 1] == WentUp }

  /**
    The converse does not hold: a slot write that lands late can hide a live tunnel. A handle is handed
    out exactly when the last bump was an up and that call's own write is the last one to have landed.
   */
  lemma AvailableIff(actions: seq<Action>)
    requires Runs(INIT, actions) && |Exec(INIT, actions).bumps| < U64
    ensures var s := Exec(INIT, actions);
            Current(s).Some? <==> TunnelIsUp(s) && s.landed != [] && s.landed[|s.landed| - 1] == |s.bumps|
  {
    RunKeepsInv(INIT, actions);
    var s := Exec(INIT, actions);
    if s.slot.Some? {
      CurrentIsLatest(s, s.slot.value);
    }
  }

  /** Calls whose writes land in the order of their bumps hide nothing: once all have landed, up means available. */
  lemma OrderedWritesHideNothing(actions: seq<Action>)
    requires Runs(INIT, actions) && |Exec(INIT, actions).bumps| < U64
    requires var s := Exec(INIT, actions);
             s.pending == [] && forall i, j :: 0 <= i < j < |s.landed| ==> s.landed[i] <= s.landed[j]
    ensures var s := Exec(INIT, actions);
            Current(s).Some? <==> TunnelIsUp(s)
  {
    RunKeepsInv(INIT, actions);
    AvailableIff(actions);
    var s := Exec(INIT, actions);
    if s.bumps != [] {
      assert |s.bumps| in s.landed && s.landed[|s.landed| - 1] in s.landed;
    }
  }

  /** Down bumps, up bumps and writes, then the down's write lands: the up's handle is live, and unreachable. */
  lemma LateWriteHidesLiveTunnel()
    ensures var actions := [Down, Up, Write(1), Write(0)];
            && Runs(INIT, actions)
            && var s := Exec(INIT, actions);
               s.pending == [] && Issued(s, 2) && IsCurrent(s, 2) && Current(s) == None
  {
  }
}
