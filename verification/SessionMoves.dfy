/**
  Where the session's one state can go: what moves it out of each state, which runs of operations reach `Connected`,
  and what becomes of an attempt nobody disturbs.
 */
module SessionMoves {
  import opened SessionCell

  ghost predicate Unforced(ops: seq<CellOp>) { forall op :: op in ops ==> !op.Force? }

  // ----- out of each state ---------------------------------------------------------------------

  /**
    A run leaves a state at the first operation among its exits, to where that operation aims, and until then stays
    put: `Disconnecting`, in particular, is left only for `Disconnected` or `Failed`.
   */
  lemma {:induction false} StaysUntilExit(s: SessionState, ops: seq<CellOp>, k: nat)
    requires Unforced(ops) && k < |ops| && forall i :: 0 <= i < k ==> ops[i] !in Exits(s)
    ensures ApplyAll(s, ops[..k]) == s
    ensures ApplyAll(s, ops[..k + 1]) == if ops[k] in Exits(s) then Aim(ops[k]) else s
    decreases k
  {
    hide Exits, Apply;
    assert ops[..k + 1] == ops[..k] + [ops[k]] && ops[k] in ops;
    ApplyAllSnoc(s, ops[..k], ops[k]);
    OneMove(s, ops[k]);
    if k == 0 {
      assert ops[..0] == [];
    } else {
      StaysUntilExit(s, ops, k - 1);
    }
  }

  // ----- to `Connected` ------------------------------------------------------------------------

  predicate Disturbs(op: CellOp) { op in {BeginDisconnect, Advance(Disconnecting), Advance(Failed)} }

  /** Operation `i` claims the free slot, and nothing after it disturbs the attempt. */
  ghost predicate Holds(s: SessionState, ops: seq<CellOp>, i: nat) {
    && i < |ops| && ops[i] in {BeginConnect, Advance(Connecting)}
    && ApplyAll(s, ops[..i]) in {Disconnected, Failed}
    && (forall k :: i < k < |ops| ==> !Disturbs(ops[k]))
  }

  ghost predicate Commits(s: SessionState, ops: seq<CellOp>, i: nat, j: nat) {
    Holds(s, ops, i) && i < j < |ops| && ops[j] == Advance(Connected)
  }

  lemma HoldsSnoc(s: SessionState, ops: seq<CellOp>, op: CellOp, i: nat)
    requires i < |ops|
    ensures Holds(s, ops + [op], i) <==> Holds(s, ops, i) && !Disturbs(op)
  {
    var all := ops + [op];
    assert all[..i] == ops[..i] && all[|ops|] == op;
    assert forall k :: 0 <= k < |ops| ==> all[k] == ops[k];
  }

  lemma ClaimedMove(s: SessionState, op: CellOp)
    requires !op.Force?
    ensures Claimed(Apply(s, op)) <==>
              || (Claimed(s) && !Disturbs(op))
              || (s in {Disconnected, Failed} && op in {BeginConnect, Advance(Connecting)})
    ensures Apply(s, op) == Connected <==> Claimed(s) && !Disturbs(op) && (s == Connected || op == Advance(Connected))
  {
  }

  /**
    From a state no attempt owns, short of force: an attempt owns the slot exactly when the slot was claimed while it
    was free and nothing disturbed the attempt since.
   */
  lemma {:induction false} ClaimedIff(s: SessionState, ops: seq<CellOp>)
    requires !Claimed(s) && Unforced(ops)
    ensures Claimed(ApplyAll(s, ops)) <==> exists i: nat :: Holds(s, ops, i)
    decreases |ops|
  {
    if ops != [] {
      var n := |ops| - 1;
      var front, op := ops[..n], ops[n];
      assert ops == front + [op] && op in ops && forall x :: x in front ==> x in ops;
      ClaimedIff(s, front);
      ApplyAllSnoc(s, front, op);
      ClaimedMove(ApplyAll(s, front), op);
      hide ApplyAll, Apply, Claimed;
      if i: nat :| Holds(s, front, i) {
        HoldsSnoc(s, front, op, i);
      }
      if i: nat :| Holds(s, ops, i) {
        if i < n {
          HoldsSnoc(s, front, op, i);
        }
      }
      if ApplyAll(s, front) in {Disconnected, Failed} && op in {BeginConnect, Advance(Connecting)} {
        assert Holds(s, ops, n);
      }
    }
  }

  /**
    And it is `Connected` exactly when `Connected` was announced after that claim. `Authenticating` may have been
    announced in between, or not.
   */
  lemma {:induction false} ReachesConnectedIff(s: SessionState, ops: seq<CellOp>)
    requires !Claimed(s) && Unforced(ops)
    ensures ApplyAll(s, ops) == Connected <==> exists i: nat, j: nat :: Commits(s, ops, i, j)
    decreases |ops|
  {
    if ops != [] {
      var n := |ops| - 1;
      var front, op := ops[..n], ops[n];
      assert ops == front + [op] && op in ops && forall x :: x in front ==> x in ops;
      ReachesConnectedIff(s, front);
      ClaimedIff(s, front);
      ApplyAllSnoc(s, front, op);
      ClaimedMove(ApplyAll(s, front), op);
      hide Holds, ApplyAll, Apply, Claimed;
      if ApplyAll(s, ops) == Connected {
        if i: nat, j: nat :| Commits(s, front, i, j) {
          HoldsSnoc(s, front, op, i);
          assert Commits(s, ops, i, j);
        } else {
          var i: nat :| Holds(s, front, i);
          HoldsWithin(s, front, i);
          HoldsSnoc(s, front, op, i);
          assert Commits(s, ops, i, n);
        }
      }
      if i: nat, j: nat :| Commits(s, ops, i, j) {
        HoldsSnoc(s, front, op, i);
        assert j < n ==> Commits(s, front, i, j);
      }
    }
  }

  lemma HoldsWithin(s: SessionState, ops: seq<CellOp>, i: nat)
    requires Holds(s, ops, i)
    ensures i < |ops|
  {
  }

  // ----- an attempt nobody disturbs ------------------------------------------------------------

  /** Others may ask for anything, as long as it neither ends the attempt nor overrides the state. */
  ghost predicate Undisturbed(ops: seq<CellOp>) { forall op :: op in ops ==> !Disturbs(op) && !op.Force? }

  lemma {:induction false} UndisturbedRun(s: SessionState, ops: seq<CellOp>)
    requires Claimed(s) && Undisturbed(ops)
    ensures Claimed(ApplyAll(s, ops))
    ensures ApplyAll(s, ops) == Connected <==> s == Connected || Advance(Connected) in ops
    ensures s == Authenticating ==> ApplyAll(s, ops) != Connecting
    decreases |ops|
  {
    if ops != [] {
      assert ops[0] in ops && forall x :: x in ops[1..] ==> x in ops;
      assert ops == [ops[0]] + ops[1..];
      UndisturbedRun(Apply(s, ops[0]), ops[1..]);
    }
  }
}
