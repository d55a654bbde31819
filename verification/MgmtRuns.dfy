/**
  From the system of actor and peer back to the loop as it runs: what has happened once everything is quiet, and
  that every run of the loop opposite such a peer is a run of the system.
 */
module MgmtRuns {
  import opened Codec
  import opened Actor
  import opened MgmtSystem

  // ----- when everything is quiet --------------------------------------------------------------

  /** Nothing to take up, nothing left to say, nothing in flight, and the channel still up. */
  predicate Quiescent(s: System) { s.unread == [] && s.script == [] && s.wire == [] && !s.actor.halted }

  lemma NothingComing(s: System)
    requires s.wire == [] && LF !in s.actor.splitter.buffered && Tail(s.actor.splitter.buffered + s.wire) == []
    ensures Coming(s) == []
  {
    var b := s.actor.splitter.buffered;
    assert b + s.wire == b;
    NoLineYet(b);
  }

  lemma QuietMeansNothingOutstanding(answers: Answers, s: System)
    requires Quiescent(s) && Inv(answers, s) && Sound(s.actor) && Answering(answers)
    ensures s.actor.pending.None? && s.actor.accumulated == []
  {
    hide Tail, Coming, Classify, ReplyBearing, SlotsOf, MadeOf;
    NothingComing(s);
    assert s.actor.accumulated == Due(answers, s.actor);
    RepliesEnd(Due(answers, s.actor));
  }

  lemma RepliesEnd(lines: seq<Line>)
    ensures ReplyShaped(lines) ==> exists l :: l in lines && !Classify(l).Data?
  {
    hide Classify;
    if ReplyShaped(lines) {
      assert lines[|lines| - 1] in lines;
    }
  }

  /**
    Nobody waits forever on a peer that has said everything: once all is quiet, every reply-bearing command
    written has been answered, in order, each with the reply the peer spelled out to it.
   */
  lemma QuietMeansEveryoneIsAnswered(parse: EventParser, answers: Answers, acts: seq<Act>)
    requires Answering(answers) && Runs(parse, answers, START, acts) && Quiescent(Exec(parse, answers, START, acts))
    ensures var a := Exec(parse, answers, START, acts).actor;
            && a.pending.None? && SlotsOf(a.answered) == ReplyBearing(a.written)
            && forall x :: x in a.answered ==> x.Replied? && answers(x.slot) == Spelled(x.reply)
  {
    hide Inv, Spelled, Answering, ReplyBearing;
    var t := Exec(parse, answers, START, acts);
    StartIsBalanced(answers);
    RunKeepsInv(parse, answers, START, acts);
    QuietMeansNothingOutstanding(answers, t);
    EveryCallerGetsItsOwnReply(parse, answers, acts);
    assert Outstanding(t.actor) == [];
  }

  // ----- the loop is a run of the system -------------------------------------------------------

  predicate IsPeerAct(act: Act) { act.PeerTakesUp? || act.PeerSays? || act.PeerNotifies? }

  /** The system after the writes of one round. */
  function AfterWrites(s: System, writes: nat): System {
    var a := Flush(s.actor, writes);
    s.(actor := a, unread := s.unread + if |s.actor.written| <= |a.written| then a.written[|s.actor.written|..] else [])
  }

  /** The act of the system that an actor's wake-up is. */
  function WakeAct(a: State, p: Progress): Act {
    match p
    case Read(bytes) => if bytes == [] then ChannelEnds else ActorReads(|bytes|)
    case ReadFails => ChannelEnds
    case Asked(c) => CallerSends(c)
    case NoMoreCommands => ChannelEnds
    case Expired => if a.pending.Some? then ChannelEnds else ActorWrites
  }

  /**
    The loop opposite a peer: in each round the actor writes, the peer does what it will, and then what the actor
    reads is what is on the wire. Whatever the peer does during the writes it could as well do after them.
   */
  ghost predicate Opposite(parse: EventParser, answers: Answers, s: System, script: seq<Round>, peer: seq<seq<Act>>)
    decreases |script|
  {
    && |peer| == |script|
    && (script != [] ==>
          var s1 := AfterWrites(s, script[0].writes);
          && (forall act :: act in peer[0] ==> IsPeerAct(act)) && Runs(parse, answers, s1, peer[0])
          && var s2 := Exec(parse, answers, s1, peer[0]);
             var p := script[0].progress;
             if s2.actor.halted then Opposite(parse, answers, s2, script[1..], peer[1..])
             else
               && (p.Read? ==> p.bytes <= s2.wire)
               && Opposite(parse, answers, Step(parse, answers, s2, WakeAct(s2.actor, p)), script[1..], peer[1..]))
  }

  lemma {:induction false} RunsConcat(parse: EventParser, answers: Answers, s: System, a: seq<Act>, b: seq<Act>)
    requires Runs(parse, answers, s, a) && Runs(parse, answers, Exec(parse, answers, s, a), b)
    ensures Runs(parse, answers, s, a + b)
    ensures Exec(parse, answers, s, a + b) == Exec(parse, answers, Exec(parse, answers, s, a), b)
    decreases |a|
  {
    hide Step, Enabled;
    if a == [] {
      assert a + b == b;
    } else {
      assert (a + b)[0] == a[0] && (a + b)[1..] == a[1..] + b;
      RunsConcat(parse, answers, Step(parse, answers, s, a[0]), a[1..], b);
    }
  }

  lemma {:induction false} PeerLeavesActor(parse: EventParser, answers: Answers, s: System, acts: seq<Act>)
    requires Runs(parse, answers, s, acts) && forall act :: act in acts ==> IsPeerAct(act)
    ensures Exec(parse, answers, s, acts).actor == s.actor
    decreases |acts|
  {
    if acts != [] {
      assert acts[0] in acts;
      PeerLeavesActor(parse, answers, Step(parse, answers, s, acts[0]), acts[1..]);
    }
  }

  lemma OneAct(parse: EventParser, answers: Answers, s: System, act: Act)
    requires Enabled(s, act)
    ensures Runs(parse, answers, s, [act]) && Exec(parse, answers, s, [act]) == Step(parse, answers, s, act)
  {
    hide Step, Enabled;
    var one := [act];
    assert one[1..] == [];
  }

  lemma {:induction false} FlushGrows(a: State, writes: nat)
    ensures a.written <= Flush(a, writes).written
    decreases |a.outbox|
  {
    if !a.halted && a.pending.None? && a.outbox != [] && writes > 0 {
      FlushGrows(FlushOne(a), writes - 1);
    }
  }

  lemma NothingWritten(parse: EventParser, answers: Answers, s: System, writes: nat)
    ensures Flushed(s.actor) ==> AfterWrites(s, writes) == s
    ensures !Flushed(s.actor) && writes == 0 ==> AfterWrites(s, writes) == Step(parse, answers, s, ChannelEnds)
  {
    var a := s.actor;
    assert a.written[|a.written|..] == [] && s.unread + [] == s.unread;
  }

  lemma OneWritten(parse: EventParser, answers: Answers, s: System, writes: nat)
    requires !Flushed(s.actor) && writes > 0
    ensures AfterWrites(s, writes) == AfterWrites(Step(parse, answers, s, ActorWrites), writes - 1)
  {
    var a := s.actor;
    var b := FlushOne(a);
    FlushGrows(b, writes - 1);
    hide FlushOne;
    OneFlush(a);
    var all := Flush(b, writes - 1).written;
    assert all[|a.written|..] == b.written[|a.written|..] + all[|b.written|..];
    var one, more := b.written[|a.written|..], all[|b.written|..];
    assert s.unread + (one + more) == s.unread + one + more;
  }

  lemma OneFlush(a: State)
    ensures a.written <= FlushOne(a).written
  {
  }

  lemma {:induction false} WritesAreActs(parse: EventParser, answers: Answers, s: System, writes: nat)
    returns (acts: seq<Act>)
    ensures Runs(parse, answers, s, acts) && Exec(parse, answers, s, acts) == AfterWrites(s, writes)
    decreases writes
  {
    assert Enabled(s, ChannelEnds) && Enabled(s, ActorWrites);
    NothingWritten(parse, answers, s, writes);
    hide Flush, FlushOne, AfterWrites, Step, Enabled, Flushed;
    if Flushed(s.actor) {
      acts := [];
    } else if writes == 0 {
      acts := [ChannelEnds];
      OneAct(parse, answers, s, ChannelEnds);
    } else {
      OneAct(parse, answers, s, ActorWrites);
      OneWritten(parse, answers, s, writes);
      var rest := WritesAreActs(parse, answers, Step(parse, answers, s, ActorWrites), writes - 1);
      RunsConcat(parse, answers, s, [ActorWrites], rest);
      acts := [ActorWrites] + rest;
    }
  }

  /** A wake-up of the loop is one act of the system, and leaves the actor as the loop does. */
  lemma WakeIsAnAct(parse: EventParser, answers: Answers, s: System, p: Progress)
    requires !s.actor.halted && (p.Read? ==> p.bytes <= s.wire) && Flushed(s.actor)
    ensures Enabled(s, WakeAct(s.actor, p))
    ensures Step(parse, answers, s, WakeAct(s.actor, p)).actor == Turn(parse, s.actor, Round(0, p))
  {
    hide Receive, Halt;
    assert p.Read? ==> s.wire[..|p.bytes|] == p.bytes;
  }

  predicate Flushed(a: State) { a.halted || a.pending.Some? || a.outbox == [] }

  lemma {:induction false} FlushFlushes(parse: EventParser, a: State, round: Round)
    ensures var f := Flush(a, round.writes);
            Flushed(f) && Turn(parse, f, Round(0, round.progress)) == Turn(parse, a, round)
    decreases |a.outbox|
  {
    hide Receive, Enqueue;
    if !Flushed(a) && round.writes > 0 {
      FlushFlushes(parse, FlushOne(a), Round(round.writes - 1, round.progress));
    }
  }

  /** Every run of the loop opposite a peer is a run of the system. */
  lemma {:induction false} LoopIsARun(
    parse: EventParser, answers: Answers, s: System, script: seq<Round>, peer: seq<seq<Act>>) returns (acts: seq<Act>)
    requires Opposite(parse, answers, s, script, peer)
    ensures Runs(parse, answers, s, acts) && Exec(parse, answers, s, acts).actor == Drive(parse, s.actor, script)
    decreases |script|
  {
    hide Step, Enabled, Turn, AfterWrites, Flush, WakeAct, IsPeerAct;
    if script == [] {
      acts := [];
    } else {
      var s1 := AfterWrites(s, script[0].writes);
      var writes := WritesAreActs(parse, answers, s, script[0].writes);
      var s2 := Exec(parse, answers, s1, peer[0]);
      RunsConcat(parse, answers, s, writes, peer[0]);
      PeerLeavesActor(parse, answers, s1, peer[0]);
      acts := writes + peer[0];
      assert s2.actor == Flush(s.actor, script[0].writes) by {
        ActorAfterWrites(s, script[0].writes);
      }
      FlushFlushes(parse, s.actor, script[0]);
      if s2.actor.halted {
        TurnWhenHalted(parse, s2.actor, script[0].progress);
        var rest := LoopIsARun(parse, answers, s2, script[1..], peer[1..]);
        RunsConcat(parse, answers, s, acts, rest);
        acts := acts + rest;
      } else {
        var wake := WakeAct(s2.actor, script[0].progress);
        WakeIsAnAct(parse, answers, s2, script[0].progress);
        OneAct(parse, answers, s2, wake);
        RunsConcat(parse, answers, s, acts, [wake]);
        acts := acts + [wake];
        var rest := LoopIsARun(parse, answers, Step(parse, answers, s2, wake), script[1..], peer[1..]);
        RunsConcat(parse, answers, s, acts, rest);
        acts := acts + rest;
      }
    }
  }

  lemma ActorAfterWrites(s: System, writes: nat)
    ensures AfterWrites(s, writes).actor == Flush(s.actor, writes)
  {
  }

  lemma TurnWhenHalted(parse: EventParser, a: State, p: Progress)
    requires a.halted
    ensures Turn(parse, a, Round(0, p)) == a
  {
  }

  /**
    Correlation for the loop itself: over any script of writes and wake-ups, opposite any peer that answers in
    order, every reply it delivers is the one spelled out to that very command.
   */
  lemma LoopCorrelates(parse: EventParser, answers: Answers, script: seq<Round>, peer: seq<seq<Act>>)
    requires Answering(answers) && Opposite(parse, answers, START, script, peer)
    ensures var a := Drive(parse, INIT, script);
            && (forall x :: x in a.answered && x.Replied? ==> answers(x.slot) == Spelled(x.reply))
            && ReplyBearing(a.written) == SlotsOf(a.answered) + Outstanding(a)
  {
    hide Drive, Exec, Runs, Opposite, Spelled, ReplyBearing, SlotsOf;
    var acts := LoopIsARun(parse, answers, START, script, peer);
    EveryCallerGetsItsOwnReply(parse, answers, acts);
  }
}
