/**
  The session's one state, which an attempt, a disconnect and a supervisor all move: what each move accepts, and
  what an accepted disconnect rules out.
 */
module SessionCell {
  datatype SessionState = Disconnected | Connecting | Authenticating | Connected | Disconnecting | Failed

  predicate IsBusy(s: SessionState) { s.Connecting? || s.Authenticating? || s.Connected? || s.Disconnecting? }

  predicate Permits(s: SessionState, next: SessionState) {
    match (s, next)
    case (_, Failed) => true
    case (Disconnected, Connecting) => true
    case (Failed, Connecting) => true
    case (Connecting, Authenticating) => true
    case (Connecting, Connected) => true
    case (Connecting, Disconnecting) => true
    case (Authenticating, Connected) => true
    case (Authenticating, Disconnecting) => true
    case (Connected, Disconnecting) => true
    case (Disconnecting, Disconnected) => true
    case (Failed, Disconnected) => true
    case _ => false
  }

  /** What other tasks, and this attempt, do to the cell. */
  datatype CellOp =
    | BeginConnect
    | BeginDisconnect
    | Advance(next: SessionState)
    | Force(next: SessionState)

  predicate Accepts(s: SessionState, op: CellOp) {
    match op
    case BeginConnect => !IsBusy(s)
    case BeginDisconnect => (IsBusy(s) || s.Failed?) && !s.Disconnecting?
    case Advance(next) => s == next || Permits(s, next)
    case Force(_) => true
  }

  function Apply(s: SessionState, op: CellOp): SessionState {
    if !Accepts(s, op) then s
    else match op
      case BeginConnect => Connecting
      case BeginDisconnect => Disconnecting
      case Advance(next) => next
      case Force(next) => next
  }

  /** What moves the cell out of a state; force, besides, moves it anywhere. */
  function Exits(s: SessionState): set<CellOp> {
    match s
    case Disconnected => {BeginConnect, Advance(Connecting), Advance(Failed)}
    case Connecting =>
      {BeginDisconnect, Advance(Authenticating), Advance(Connected), Advance(Disconnecting), Advance(Failed)}
    case Authenticating => {BeginDisconnect, Advance(Connected), Advance(Disconnecting), Advance(Failed)}
    case Connected => {BeginDisconnect, Advance(Disconnecting), Advance(Failed)}
    case Disconnecting => {Advance(Disconnected), Advance(Failed)}
    case Failed => {BeginConnect, BeginDisconnect, Advance(Connecting), Advance(Disconnected)}
  }

  /** Where an operation is meant to lead. */
  function Aim(op: CellOp): SessionState {
    match op
    case BeginConnect => Connecting
    case BeginDisconnect => Disconnecting
    case Advance(next) => next
    case Force(next) => next
  }

  lemma OneMove(s: SessionState, op: CellOp)
    ensures Apply(s, op) == if op.Force? || op in Exits(s) then Aim(op) else s
    ensures op in Exits(s) ==> Aim(op) != s
  {
  }

  function ApplyAll(s: SessionState, ops: seq<CellOp>): SessionState
    decreases |ops|
  {
    if ops == [] then s else ApplyAll(Apply(s, ops[0]), ops[1..])
  }

  /** An attempt owns the slot. */
  predicate Claimed(s: SessionState) { s.Connecting? || s.Authenticating? || s.Connected? }

  /** Nothing among `ops` claims the slot anew: no connect is accepted, and nothing else asks for its first state. */
  ghost predicate NoNewConnect(s: SessionState, ops: seq<CellOp>)
    decreases |ops|
  {
    ops == [] ||
    (&& (ops[0].BeginConnect? ==> !Accepts(s, ops[0]))
     && (ops[0].Advance? ==> ops[0].next != Connecting)
     && (ops[0].Force? ==> !Claimed(ops[0].next))
     && NoNewConnect(Apply(s, ops[0]), ops[1..]))
  }

  /**
    A disconnect accepted before the commit makes the commit refuse, whatever comes between, unless a later
    connect was accepted.
   */
  lemma {:induction false} DisconnectStopsTheCommit(s: SessionState, ops: seq<CellOp>)
    requires !Claimed(s) && NoNewConnect(s, ops)
    ensures !Claimed(ApplyAll(s, ops))
    ensures !Accepts(ApplyAll(s, ops), Advance(Connected)) && !Accepts(ApplyAll(s, ops), Advance(Authenticating))
    decreases |ops|
  {
    if ops != [] {
      DisconnectStopsTheCommit(Apply(s, ops[0]), ops[1..]);
    }
  }

  lemma {:induction false} ApplyAllSplit(s: SessionState, ops: seq<CellOp>, i: nat)
    requires i <= |ops|
    ensures ApplyAll(s, ops) == ApplyAll(ApplyAll(s, ops[..i]), ops[i..])
    decreases |ops|
  {
    hide Apply;
    if i == 0 {
      assert ops[0..] == ops;
    } else {
      ApplyAllSplit(Apply(s, ops[0]), ops[1..], i - 1);
      assert ops[..i][0] == ops[0] && ops[..i][1..] == ops[1..][..i - 1] && ops[i..] == ops[1..][i - 1..];
    }
  }

  lemma ApplyAllConcat(s: SessionState, a: seq<CellOp>, b: seq<CellOp>)
    ensures ApplyAll(s, a + b) == ApplyAll(ApplyAll(s, a), b)
  {
    ApplyAllSplit(s, a + b, |a|);
    assert (a + b)[..|a|] == a && (a + b)[|a|..] == b;
  }

  lemma ApplyAllSnoc(s: SessionState, a: seq<CellOp>, op: CellOp)
    ensures ApplyAll(s, a + [op]) == Apply(ApplyAll(s, a), op)
  {
    ApplyAllConcat(s, a, [op]);
    assert ApplyAll(ApplyAll(s, a), [op]) == ApplyAll(Apply(ApplyAll(s, a), op), [op][1..]);
  }

  /** Among `ops`, applied from `s`, the `i`-th is an accepted disconnect and no connect is accepted after it. */
  ghost predicate LastWordIsDisconnect(s: SessionState, ops: seq<CellOp>, i: nat) {
    && i < |ops| && ops[i].BeginDisconnect? && Accepts(ApplyAll(s, ops[..i]), ops[i])
    && NoNewConnect(Disconnecting, ops[i + 1..])
  }

  lemma DisconnectWins(s: SessionState, ops: seq<CellOp>, i: nat)
    requires LastWordIsDisconnect(s, ops, i)
    ensures !Accepts(ApplyAll(s, ops), Advance(Connected))
  {
    ApplyAllSplit(s, ops, i);
    assert ops[i..][0] == ops[i] && ops[i..][1..] == ops[i + 1..];
    DisconnectStopsTheCommit(Disconnecting, ops[i + 1..]);
  }

  class StateCell {
    var current: SessionState

    constructor ()
      ensures current == Disconnected
    {
      current := Disconnected;
    }

    method Do(op: CellOp) returns (accepted: bool)
      modifies this
      ensures accepted == Accepts(old(current), op) && current == Apply(old(current), op)
      ensures !accepted ==> current == old(current)
      ensures current == if op.Force? || op in Exits(old(current)) then Aim(op) else old(current)
    {
      OneMove(current, op);
      match op {
        case BeginConnect =>
          if current.Connected? || IsBusy(current) {
            return false;
          }
          current := Connecting;
        case BeginDisconnect =>
          if !IsBusy(current) && !current.Failed? {
            return false;
          }
          if current.Disconnecting? {
            return false;
          }
          current := Disconnecting;
        case Advance(next) =>
          if current == next {
            return true;
          }
          if !Permits(current, next) {
            return false;
          }
          current := next;
        case Force(next) =>
          current := next;
      }
      accepted := true;
    }

    method DoAll(ops: seq<CellOp>)
      modifies this
      ensures current == ApplyAll(old(current), ops)
    {
      ghost var goal := ApplyAll(current, ops);
      var i := 0;
      while i < |ops|
        invariant 0 <= i <= |ops|
        invariant ApplyAll(current, ops[i..]) == goal
      {
        assert ops[i..][1..] == ops[i + 1..];
        var _ := Do(ops[i]);
        i := i + 1;
      }
    }
  }
}
