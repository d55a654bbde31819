/**
  The actor opposite a peer, over a byte stream cut anywhere. What follows holds over every run: any
  schedule of callers, writes, reads of any size, peer answers and interleaved notifications.
 */
module MgmtSystem {
  import opened Wrappers
  import opened Bytes
  import opened Codec
  import opened Actor

  // ----- against any peer at all ---------------------------------------------------------------

  function ReplyBearing(slots: seq<Slot>): seq<Slot> {
    if slots == [] then []
    else
      var last := slots[|slots| - 1];
      ReplyBearing(slots[..|slots| - 1]) + if last.command.expectsReply then [last] else []
  }

  function SlotsOf(answers: seq<Answer>): seq<Slot> {
    seq(|answers|, i requires 0 <= i < |answers| => answers[i].slot)
  }

  function Outstanding(a: State): seq<Slot> { if a.pending.Some? then [a.pending.value] else [] }

  /** A reply made of exactly the lines heard: body lines, then one terminal line. */
  ghost predicate MadeOf(reply: Reply, heard: seq<Line>) {
    && heard != [] && IsTerminal(Classify(heard[|heard| - 1]))
    && (forall i :: 0 <= i < |heard| - 1 ==> Classify(heard[i]).Data?)
    && reply == Finish(heard[..|heard| - 1], Classify(heard[|heard| - 1]))
  }

  /**
    What no peer can break: nothing is accumulated while nothing is outstanding, so every body line of a
    reply was framed while its command was; replies go to reply-bearing commands in the order written,
    one each, with at most one outstanding, and only the end of the channel loses one; the outbox stays
    within its limit.
   */
  ghost predicate Sound(a: State) {
    && (a.pending.None? ==> a.accumulated == [] || a.halted)
    && (forall l :: l in a.accumulated ==> Classify(l).Data?)
    && |a.outbox| <= OUTBOX_LIMIT
    && ReplyBearing(a.written) == SlotsOf(a.answered) + Outstanding(a)
    && (forall x :: x in a.answered && x.Replied? ==> MadeOf(x.reply, x.heard))
    && (!a.halted ==> forall x :: x in a.answered ==> x.Replied?)
  }

  lemma HaltSound(a: State)
    requires Sound(a)
    ensures Sound(Halt(a))
  {
  }

  lemma FlushSound(a: State)
    requires Sound(a)
    ensures Sound(FlushOne(a))
  {
  }

  /** A terminal line turns what was accumulated into the pending command's reply. */
  lemma AnswerSound(a: State, line: Line)
    requires Sound(a) && a.pending.Some? && IsTerminal(Classify(line))
    ensures Sound(a.(accumulated := [], pending := None,
              answered := a.answered + [Replied(a.pending.value, Finish(a.accumulated, Classify(line)),
                  a.accumulated + [line])]))
  {
  }

  lemma RouteSound(parse: EventParser, a: State, line: Line)
    requires Sound(a)
    ensures Sound(RouteLine(parse, a, line))
  {
    var frame := Classify(line);
    hide Classify, ReplyBearing, SlotsOf, IsHold, MadeOf;
    if a.halted {
    } else if frame.Event? {
      var outbox := if IsHold(line) && |a.outbox| < OUTBOX_LIMIT then a.outbox + [HOLD_RELEASE] else a.outbox;
      HaltSound(a.(outbox := outbox, tunnel := Tunnel.Fold(a.tunnel, parse(line))));
    } else if a.pending.Some? && !frame.Data? {
      AnswerSound(a, line);
    }
  }

  lemma {:induction false} RouteAllSound(parse: EventParser, a: State, lines: seq<Line>)
    requires Sound(a)
    ensures Sound(RouteAll(parse, a, lines))
    decreases |lines|
  {
    hide RouteLine, Sound;
    if lines != [] {
      RouteSound(parse, a, lines[0]);
      RouteAllSound(parse, RouteLine(parse, a, lines[0]), lines[1..]);
    }
  }

  lemma ReceiveSound(parse: EventParser, a: State, chunk: Octets)
    requires Sound(a)
    ensures Sound(Receive(parse, a, chunk))
  {
    HaltSound(a);
    var p := Push(a.splitter, chunk);
    if p.Split? {
      assert Sound(a.(splitter := p.next));
      hide Sound, Push, RouteAll;
      RouteAllSound(parse, a.(splitter := p.next), p.lines);
    }
  }

  lemma {:induction false} FlushAllSound(a: State, writes: nat)
    requires Sound(a)
    ensures Sound(Flush(a, writes))
    decreases |a.outbox|
  {
    HaltSound(a);
    if !a.halted && a.pending.None? && a.outbox != [] && writes > 0 {
      FlushSound(a);
      hide Sound;
      FlushAllSound(FlushOne(a), writes - 1);
    }
  }

  /** Every run of the actor, whatever it reads and whenever, keeps replies attributable. */
  lemma {:induction false} DriveSound(parse: EventParser, a: State, script: seq<Round>)
    requires Sound(a)
    ensures Sound(Drive(parse, a, script))
    decreases |script|
  {
    if script != [] {
      var p := script[0].progress;
      FlushAllSound(a, script[0].writes);
      var f := Flush(a, script[0].writes);
      HaltSound(f);
      if p.Read? {
        ReceiveSound(parse, f, p.bytes);
      }
      assert p.Asked? ==> Sound(Enqueue(f, p.command));
      hide Sound, Flush, Halt, Receive, Enqueue;
      DriveSound(parse, Turn(parse, a, script[0]), script[1..]);
    }
  }

  // ----- order ---------------------------------------------------------------------------------

  function CommandsOf(slots: seq<Slot>): seq<Command> {
    seq(|slots|, i requires 0 <= i < |slots| => slots[i].command)
  }

  /** Every command ever taken in, in order: those written, then those still queued. */
  function Queue(a: State): seq<Command> { CommandsOf(a.written) + a.outbox }

  lemma FlushKeepsQueue(a: State)
    ensures Queue(FlushOne(a)) == Queue(a)
  {
  }

  lemma {:induction false} FlushAllKeepsQueue(a: State, writes: nat)
    ensures Queue(Flush(a, writes)) == Queue(a)
    decreases |a.outbox|
  {
    if !a.halted && a.pending.None? && a.outbox != [] && writes > 0 {
      FlushKeepsQueue(a);
      FlushAllKeepsQueue(FlushOne(a), writes - 1);
    }
  }

  /** `>HOLD` alone, or `>HOLD:` and anything. */
  predicate SaysHold(line: Line) { IsText(line, ">HOLD") || (|line| > 5 && IsText(line[..6], ">HOLD:")) }

  lemma HoldIff(line: Line)
    ensures IsHold(line) <==> SaysHold(line)
    ensures IsHold(line) ==> Classify(line).Event?
  {
    if |line| >= 5 {
      assert line[1..5] == [line[1], line[2], line[3], line[4]];
    }
  }

  function Holds(lines: seq<Line>): nat {
    if lines == [] then 0 else (if SaysHold(lines[0]) then 1 else 0) + Holds(lines[1..])
  }

  function Releases(n: nat): seq<Command> { seq(n, _ => HOLD_RELEASE) }

  function Smaller(a: nat, b: nat): nat { if a < b then a else b }

  /**
    Every hold notification queues one release, as far as the outbox has room, and nothing else queues anything. A
    release is the command `hold release`, for nobody, answered like any other.
   */
  lemma {:induction false} HoldsAreReleased(parse: EventParser, a: State, lines: seq<Line>)
    requires |a.outbox| <= OUTBOX_LIMIT && !RouteAll(parse, a, lines).halted
    ensures var b := RouteAll(parse, a, lines);
            && b.written == a.written
            && b.outbox == a.outbox + Releases(Smaller(Holds(lines), 32 - |a.outbox|))
    ensures IsText(HOLD_RELEASE.text, "hold release") && !HOLD_RELEASE.wanted && HOLD_RELEASE.expectsReply
    decreases |lines|
  {
    if lines == [] {
      assert a.outbox + Releases(0) == a.outbox;
    } else {
      var b := RouteLine(parse, a, lines[0]);
      assert !b.halted by {
        if b.halted {
          HaltedStays(parse, b, lines[1..]);
        }
      }
      HoldIff(lines[0]);
      hide Classify, IsHold, SaysHold, RouteAll, IsText;
      HoldsAreReleased(parse, b, lines[1..]);
    }
  }

  lemma {:induction false} RouteGrowsQueue(parse: EventParser, a: State, lines: seq<Line>)
    ensures Queue(a) <= Queue(RouteAll(parse, a, lines))
    decreases |lines|
  {
    if lines != [] {
      var b := RouteLine(parse, a, lines[0]);
      assert b.written == a.written && a.outbox <= b.outbox;
      hide RouteLine;
      assert Queue(a) <= Queue(b);
      RouteGrowsQueue(parse, b, lines[1..]);
    }
  }

  lemma TurnGrowsQueue(parse: EventParser, a: State, round: Round)
    ensures Queue(a) <= Queue(Turn(parse, a, round))
    ensures var f, p := Flush(a, round.writes), round.progress;
            p.Asked? && !f.halted && |f.outbox| < OUTBOX_LIMIT ==>
                Queue(Turn(parse, a, round)) == Queue(a) + [p.command]
  {
    FlushAllKeepsQueue(a, round.writes);
    var f, p := Flush(a, round.writes), round.progress;
    if p.Read? && Push(f.splitter, p.bytes).Split? {
      var q := Push(f.splitter, p.bytes);
      RouteGrowsQueue(parse, f.(splitter := q.next), q.lines);
      assert Queue(f.(splitter := q.next)) == Queue(f);
    }
    hide Flush, RouteAll, Push, CommandsOf;
  }

  /**
    First in, first out: over any run the queue only grows at its end, so no command is dropped, reordered
    or overtaken.
   */
  lemma {:induction false} DriveIsFifo(parse: EventParser, a: State, script: seq<Round>)
    ensures Queue(a) <= Queue(Drive(parse, a, script))
    decreases |script|
  {
    hide Turn, Queue;
    if script != [] {
      TurnGrowsQueue(parse, a, script[0]);
      DriveIsFifo(parse, Turn(parse, a, script[0]), script[1..]);
    }
  }

  // ----- against a peer that answers in order --------------------------------------------------

  /** What the peer says to the command in a slot. */
  type Answers = Slot -> seq<Line>

  /** One reply as the protocol defines it: data lines, then exactly one terminal line. */
  ghost predicate ReplyShaped(lines: seq<Line>) {
    && lines != [] && IsTerminal(Classify(lines[|lines| - 1]))
    && (forall i :: 0 <= i < |lines| - 1 ==> Classify(lines[i]).Data?)
    && (forall l :: l in lines ==> LF !in l)
  }

  /** The peer answers exactly the commands that are expected to be answered. */
  ghost predicate Answering(answers: Answers) {
    forall s: Slot :: if s.command.expectsReply then ReplyShaped(answers(s)) else answers(s) == []
  }

  /** `unread` is written and not yet taken up; `script` is what is left to say; `wire` is in flight back. */
  datatype System = System(actor: State, unread: seq<Slot>, script: seq<Line>, wire: Octets)

  datatype Act =
    | CallerSends(command: Command)
    | ActorWrites
    | PeerTakesUp
    | PeerSays
    | PeerNotifies(line: Line)
    | ActorReads(count: nat)
    | ChannelEnds

  function OnWire(line: Line): Octets { line + [CR] + [LF] }

  predicate Enabled(s: System, act: Act) {
    match act
    case CallerSends(_) => true
    case ActorWrites => true
    case PeerTakesUp => s.script == [] && s.unread != []
    case PeerSays => s.script != []
    case PeerNotifies(line) => Classify(line).Event? && LF !in line
    case ActorReads(n) => n <= |s.wire|
    case ChannelEnds => true
  }

  function Step(parse: EventParser, answers: Answers, s: System, act: Act): System
    requires Enabled(s, act)
  {
    match act
    case CallerSends(c) => s.(actor := Enqueue(s.actor, c))
    case ActorWrites =>
      var a := FlushOne(s.actor);
      s.(actor := a, unread := s.unread + a.written[|s.actor.written|..])
    case PeerTakesUp => s.(unread := s.unread[1..], script := answers(s.unread[0]))
    case PeerSays => s.(script := s.script[1..], wire := s.wire + OnWire(s.script[0]))
    case PeerNotifies(line) => s.(wire := s.wire + OnWire(line))
    case ActorReads(n) => s.(actor := Receive(parse, s.actor, s.wire[..n]), wire := s.wire[n..])
    case ChannelEnds => s.(actor := Halt(s.actor))
  }

  ghost predicate Runs(parse: EventParser, answers: Answers, s: System, acts: seq<Act>)
    decreases |acts|
  {
    acts == [] || (Enabled(s, acts[0]) && Runs(parse, answers, Step(parse, answers, s, acts[0]), acts[1..]))
  }

  function Exec(parse: EventParser, answers: Answers, s: System, acts: seq<Act>): System
    requires Runs(parse, answers, s, acts)
    decreases |acts|
  {
    if acts == [] then s else Exec(parse, answers, Step(parse, answers, s, acts[0]), acts[1..])
  }

  const START := System(INIT, [], [], [])

  // ----- the balance every step keeps ----------------------------------------------------------

  function NonEvents(lines: seq<Line>): seq<Line> {
    if lines == [] then []
    else (if Classify(lines[0]).Event? then [] else [lines[0]]) + NonEvents(lines[1..])
  }

  function AnswersTo(answers: Answers, slots: seq<Slot>): seq<Line> {
    if slots == [] then [] else answers(slots[0]) + AnswersTo(answers, slots[1..])
  }

  /** The lines the actor has yet to see, whatever reads they will come in. */
  function Coming(s: System): seq<Line> { Decoded(Lines(s.actor.splitter.buffered + s.wire)) }

  function Due(answers: Answers, a: State): seq<Line> {
    if a.pending.Some? then answers(a.pending.value) else []
  }

  /**
    Heard, in flight, half said and not yet taken up: together, and in that order, these are exactly the
    answer of the one command outstanding, or nothing at all.
   */
  ghost predicate Balanced(answers: Answers, a: State, coming: seq<Line>, script: seq<Line>, unread: seq<Slot>) {
    && (a.pending.Some? ==> a.pending.value.command.expectsReply)
    && a.accumulated + NonEvents(coming) + (script + AnswersTo(answers, unread)) == Due(answers, a)
  }

  /** Every reply given so far is its own command's reply. */
  ghost predicate Correlated(answers: Answers, a: State) {
    forall x :: x in a.answered && x.Replied? ==> x.heard == answers(x.slot)
  }

  ghost predicate Inv(answers: Answers, s: System) {
    && Correlated(answers, s.actor)
    && (forall l :: l in s.script ==> LF !in l)
    && (!s.actor.halted ==>
          && LF !in s.actor.splitter.buffered && Tail(s.actor.splitter.buffered + s.wire) == []
          && Balanced(answers, s.actor, Coming(s), s.script, s.unread))
  }

  lemma {:induction false} NonEventsConcat(a: seq<Line>, b: seq<Line>)
    ensures NonEvents(a + b) == NonEvents(a) + NonEvents(b)
    decreases |a|
  {
    hide Classify;
    if a == [] {
      assert a + b == b;
    } else {
      assert (a + b)[1..] == a[1..] + b;
      NonEventsConcat(a[1..], b);
    }
  }

  lemma {:induction false} AnswersSnoc(answers: Answers, slots: seq<Slot>, s: Slot)
    ensures AnswersTo(answers, slots + [s]) == AnswersTo(answers, slots) + answers(s)
    decreases |slots|
  {
    if slots == [] {
      assert slots + [s] == [s] && [s][1..] == [];
    } else {
      assert (slots + [s])[1..] == slots[1..] + [s];
      AnswersSnoc(answers, slots[1..], s);
    }
  }

  /** A terminal line after what was accumulated completes the outstanding answer, and nothing of it is left. */
  lemma TerminalCompletes(lines: seq<Line>, before: seq<Line>, line: Line, after: seq<Line>)
    requires ReplyShaped(lines) && lines == before + [line] + after && !Classify(line).Data?
    ensures after == [] && lines == before + [line]
  {
    hide Classify;
    assert lines[|before|] == line;
  }

  lemma RouteBalanced(parse: EventParser, answers: Answers, a: State, line: Line, coming: seq<Line>,
      script: seq<Line>, unread: seq<Slot>)
    requires Answering(answers) && !a.halted && Correlated(answers, a)
    requires Balanced(answers, a, [line] + coming, script, unread)
    ensures var b := RouteLine(parse, a, line);
            Correlated(answers, b) && (!b.halted ==> Balanced(answers, b, coming, script, unread))
  {
    var rest := NonEvents(coming) + (script + AnswersTo(answers, unread));
    var frame := Classify(line);
    assert ([line] + coming)[1..] == coming;
    hide Classify, IsHold, AnswersTo;
    if frame.Event? {
      assert NonEvents([line] + coming) == NonEvents(coming);
    } else {
      assert NonEvents([line] + coming) == [line] + NonEvents(coming);
      assert a.accumulated + [line] + rest == Due(answers, a);
      if a.pending.Some? && !frame.Data? {
        TerminalCompletes(answers(a.pending.value), a.accumulated, line, rest);
      }
    }
  }

  lemma {:induction false} RouteAllBalanced(parse: EventParser, answers: Answers, a: State, lines: seq<Line>,
      coming: seq<Line>, script: seq<Line>, unread: seq<Slot>)
    requires Answering(answers) && Correlated(answers, a)
    requires !a.halted ==> Balanced(answers, a, lines + coming, script, unread)
    ensures var b := RouteAll(parse, a, lines);
            Correlated(answers, b) && (!b.halted ==> Balanced(answers, b, coming, script, unread))
    decreases |lines|
  {
    hide Answering, Correlated, Balanced, RouteLine;
    if a.halted {
      HaltedStays(parse, a, lines);
    } else if lines == [] {
      assert lines + coming == coming;
    } else {
      assert lines + coming == [lines[0]] + (lines[1..] + coming);
      RouteBalanced(parse, answers, a, lines[0], lines[1..] + coming, script, unread);
      RouteAllBalanced(parse, answers, RouteLine(parse, a, lines[0]), lines[1..], coming, script, unread);
    }
  }

  lemma OneLineOnWire(line: Line)
    requires LF !in line
    ensures Lines(OnWire(line)) == [line + [CR]] && Tail(OnWire(line)) == [] && Decoded([line + [CR]]) == [line]
  {
    var raw := line + [CR];
    var one: seq<Line> := [raw];
    assert one[1..] == [] && raw + [LF] + [] == OnWire(line);
    SplitOfJoin(one, []);
    hide Lines, Tail;
    assert raw[..|raw| - 1] == line;
  }

  /** A whole line appended to a stream of whole lines is one more line to come. */
  lemma OneMoreLine(s: Octets, line: Line)
    requires Tail(s) == [] && LF !in line
    ensures Tail(s + OnWire(line)) == [] && Decoded(Lines(s + OnWire(line))) == Decoded(Lines(s)) + [line]
  {
    hide Lines, Tail, OnWire, Decoded;
    SplitAcross(s, OnWire(line));
    assert Tail(s) + OnWire(line) == OnWire(line);
    OneLineOnWire(line);
    DecodedConcat(Lines(s), [line + [CR]]);
  }

  lemma WriteKeepsInv(parse: EventParser, answers: Answers, s: System)
    requires Inv(answers, s) && Answering(answers)
    ensures Inv(answers, Step(parse, answers, s, ActorWrites))
  {
    var a := s.actor;
    if !a.halted && a.pending.None? && a.outbox != [] {
      var slot := Slot(|a.written|, a.outbox[0]);
      assert FlushOne(a).written[|a.written|..] == [slot];
      AnswersSnoc(answers, s.unread, slot);
      assert a.accumulated == [] && NonEvents(Coming(s)) == [] && s.script == [] && AnswersTo(answers, s.unread) == [];
      hide Tail, Lines, AnswersTo, NonEvents;
    } else {
      assert FlushOne(a).written[|a.written|..] == [];
      assert s.unread + [] == s.unread;
    }
  }

  lemma TakeUpKeepsInv(parse: EventParser, answers: Answers, s: System)
    requires Inv(answers, s) && Answering(answers) && Enabled(s, PeerTakesUp)
    ensures Inv(answers, Step(parse, answers, s, PeerTakesUp))
  {
    hide Tail, Lines, NonEvents;
    var head := s.unread[0];
    assert s.script + AnswersTo(answers, s.unread) == answers(head) + AnswersTo(answers, s.unread[1..]);
    assert head.command.expectsReply ==> ReplyShaped(answers(head));
  }

  lemma ComingGrows(s: System, line: Line)
    requires Tail(s.actor.splitter.buffered + s.wire) == [] && LF !in line
    ensures var s' := s.(wire := s.wire + OnWire(line));
            && Tail(s'.actor.splitter.buffered + s'.wire) == [] && Coming(s') == Coming(s) + [line]
            && NonEvents(Coming(s')) == NonEvents(Coming(s)) + if Classify(line).Event? then [] else [line]
  {
    var b := s.actor.splitter.buffered;
    OneMoreLine(b + s.wire, line);
    assert b + (s.wire + OnWire(line)) == b + s.wire + OnWire(line);
    NonEventsConcat(Coming(s), [line]);
    var one: seq<Line> := [line];
    assert one[1..] == [];
    hide Lines, Tail, Decoded, Classify;
    assert NonEvents(one) == if Classify(line).Event? then [] else [line];
  }

  lemma NotifyKeepsInv(answers: Answers, s: System, line: Line)
    requires Inv(answers, s) && LF !in line && Classify(line).Event?
    ensures Inv(answers, s.(wire := s.wire + OnWire(line)))
  {
    hide Tail, Coming, NonEvents, Classify, OnWire, AnswersTo;
    if !s.actor.halted {
      ComingGrows(s, line);
    }
  }

  lemma SaysKeepsInv(answers: Answers, s: System)
    requires Inv(answers, s) && s.script != [] && (!s.actor.halted ==> !Classify(s.script[0]).Event?)
    ensures Inv(answers, s.(script := s.script[1..], wire := s.wire + OnWire(s.script[0])))
  {
    hide Tail, Coming, NonEvents, Classify, OnWire, AnswersTo;
    var line := s.script[0];
    var s' := s.(wire := s.wire + OnWire(line));
    var rest := AnswersTo(answers, s.unread);
    assert s.script == [line] + s.script[1..] && line in s.script;
    if !s.actor.halted {
      ComingGrows(s, line);
      assert Coming(s.(script := s.script[1..], wire := s.wire + OnWire(line))) == Coming(s') by {
        ComingDependsOnBytes(s', s.script[1..]);
      }
      assert s.actor.accumulated + (NonEvents(Coming(s)) + [line]) + (s.script[1..] + rest)
          == s.actor.accumulated + NonEvents(Coming(s)) + (s.script + rest);
    }
  }

  lemma ComingDependsOnBytes(s: System, script: seq<Line>)
    ensures Coming(s.(script := script)) == Coming(s)
  {
  }

  /** A read takes a prefix of the lines to come, and leaves the others to come. */
  lemma ReadSplits(b: Octets, wire: Octets, n: nat)
    requires n <= |wire| && LF !in b
    ensures var got, left := b + wire[..n], wire[n..];
            && Decoded(Lines(b + wire)) == Decoded(Lines(got)) + Decoded(Lines(Tail(got) + left))
            && Tail(b + wire) == Tail(Tail(got) + left) && LF !in Tail(got)
  {
    var got, left := b + wire[..n], wire[n..];
    assert b + wire == got + left;
    SplitAcross(got, left);
    JoinOfSplit(got);
    DecodedConcat(Lines(got), Lines(Tail(got) + left));
  }

  lemma ReadKeepsInv(parse: EventParser, answers: Answers, s: System, n: nat)
    requires Inv(answers, s) && Answering(answers) && n <= |s.wire|
    ensures Inv(answers, Step(parse, answers, s, ActorReads(n)))
  {
    hide Tail, Lines, Decoded, RouteAll, NonEvents, AnswersTo, Answering;
    var a := s.actor;
    if !a.halted {
      var b := a.splitter.buffered;
      ReadSplits(b, s.wire, n);
      var p := Push(a.splitter, s.wire[..n]);
      if p.Split? {
        var a' := a.(splitter := p.next);
        var coming := Decoded(Lines(p.next.buffered + s.wire[n..]));
        assert Balanced(answers, a', p.lines + coming, s.script, s.unread);
        hide Balanced, Correlated;
        assert Correlated(answers, a') by {
          CorrelatedByAnswers(answers, a, a');
        }
        RouteAllBalanced(parse, answers, a', p.lines, coming, s.script, s.unread);
        RouteAllKeepsSplitter(parse, a', p.lines);
      }
    }
  }

  lemma CorrelatedByAnswers(answers: Answers, a: State, b: State)
    requires Correlated(answers, a) && a.answered == b.answered
    ensures Correlated(answers, b)
  {
  }

  lemma EnqueueAndHaltKeepInv(answers: Answers, s: System, c: Command)
    requires Inv(answers, s)
    ensures Inv(answers, s.(actor := Enqueue(s.actor, c))) && Inv(answers, s.(actor := Halt(s.actor)))
  {
  }

  lemma StepKeepsInv(parse: EventParser, answers: Answers, s: System, act: Act)
    requires Inv(answers, s) && Answering(answers) && Enabled(s, act)
    ensures Inv(answers, Step(parse, answers, s, act))
  {
    hide Inv, Answering, Enqueue, Halt, Receive, FlushOne, Classify, OnWire;
    match act
    case CallerSends(c) =>
      EnqueueAndHaltKeepInv(answers, s, c);
    case ActorWrites =>
      WriteKeepsInv(parse, answers, s);
    case PeerTakesUp =>
      TakeUpKeepsInv(parse, answers, s);
    case PeerSays =>
      if !s.actor.halted {
        NextLineIsNoEvent(answers, s);
      }
      SaysKeepsInv(answers, s);
    case PeerNotifies(line) =>
      NotifyKeepsInv(answers, s, line);
    case ActorReads(n) =>
      ReadKeepsInv(parse, answers, s, n);
    case ChannelEnds =>
      EnqueueAndHaltKeepInv(answers, s, HOLD_RELEASE);
  }

  /** What the peer is about to say belongs to a reply, so it is not a notification. */
  lemma NextLineIsNoEvent(answers: Answers, s: System)
    requires Inv(answers, s) && Answering(answers) && !s.actor.halted && s.script != []
    ensures !Classify(s.script[0]).Event?
  {
    hide Tail, Lines, NonEvents, AnswersTo, Classify;
    var a := s.actor;
    var due := Due(answers, a);
    var k := |a.accumulated + NonEvents(Coming(s))|;
    assert due[k] == s.script[0];
    assert ReplyShaped(due);
    assert k < |due| - 1 ==> Classify(due[k]).Data?;
  }

  lemma StepSound(parse: EventParser, answers: Answers, s: System, act: Act)
    requires Sound(s.actor) && Enabled(s, act)
    ensures Sound(Step(parse, answers, s, act).actor)
  {
    match act
    case ActorWrites =>
      FlushSound(s.actor);
    case ActorReads(n) =>
      ReceiveSound(parse, s.actor, s.wire[..n]);
    case ChannelEnds =>
      HaltSound(s.actor);
    case CallerSends(c) =>
      assert Sound(Enqueue(s.actor, c));
    case _ =>
  }

  lemma {:induction false} RunKeepsInv(parse: EventParser, answers: Answers, s: System, acts: seq<Act>)
    requires Answering(answers) && Runs(parse, answers, s, acts) && Inv(answers, s) && Sound(s.actor)
    ensures var t := Exec(parse, answers, s, acts); Inv(answers, t) && Sound(t.actor)
    decreases |acts|
  {
    hide Inv, Sound, Step, Enabled, Answering;
    if acts != [] {
      StepKeepsInv(parse, answers, s, acts[0]);
      StepSound(parse, answers, s, acts[0]);
      RunKeepsInv(parse, answers, Step(parse, answers, s, acts[0]), acts[1..]);
    }
  }

  lemma StartIsBalanced(answers: Answers)
    ensures Inv(answers, START) && Sound(START.actor)
  {
    NoLineYet([]);
  }

  /** How the protocol spells a reply: its body, then the line that ends it. */
  function Spelled(r: Reply): seq<Line> {
    r.lines + [match r.status
               case Succeeded => SUCCESS + r.text
               case Failed => ERROR + r.text
               case Ended => END]
  }

  /** A body line: it does not read as a notification, nor as any of the three endings. */
  predicate Plain(l: Line) { (l == [] || l[0] != 62) && !(SUCCESS <= l) && !(ERROR <= l) && l != END }

  predicate Spellable(r: Reply) {
    && (forall l :: l in r.lines ==> Plain(l))
    && (r.status.Ended? ==> r.text == [])
  }

  /** The three endings, as text, and what each is read as. */
  lemma EndingsReadBack(text: Octets)
    ensures IsText(SUCCESS, "SUCCESS: ") && IsText(ERROR, "ERROR: ") && IsText(END, "END")
    ensures Classify(SUCCESS + text) == Success(text) && Classify(ERROR + text) == Error(text) && Classify(END) == End
  {
  }

  /** A line reads as an ending exactly when it is spelled as that ending, and as data exactly when plain. */
  lemma FramesAreSpelled(line: Line)
    ensures match Classify(line)
            case Success(text) => line == SUCCESS + text
            case Error(text) => line == ERROR + text
            case End => line == END
            case Data => Plain(line)
            case Event => line != [] && line[0] == 62
    ensures Plain(line) ==> Classify(line).Data?
  {
  }

  /** The lines a reply was made of are its spelling, and a spelling is read as no other reply. */
  lemma MadeOfIsSpelled(reply: Reply, heard: seq<Line>)
    ensures MadeOf(reply, heard) <==> heard == Spelled(reply) && Spellable(reply)
  {
    hide IsText;
    EndingsReadBack(reply.text);
    forall l: Line ensures Plain(l) <==> Classify(l).Data? { FramesAreSpelled(l); }
    hide Classify, Plain;
    if MadeOf(reply, heard) {
      var body, end := heard[..|heard| - 1], heard[|heard| - 1];
      assert heard == body + [end];
      assert forall l :: l in body ==> Classify(l).Data?;
      FramesAreSpelled(end);
    }
    if heard == Spelled(reply) && Spellable(reply) {
      assert heard[..|heard| - 1] == reply.lines;
    }
  }

  /**
    Correlation without ids. Against any peer that answers each reply-bearing command, in order, with its
    body lines and one terminal line, whatever it interleaves and wherever the reads fall: every reply
    delivered is the one the peer spelled out to that very command, line for line; and the commands
    answered or outstanding are the reply-bearing ones written, in order, none skipped and none twice.
   */
  lemma EveryCallerGetsItsOwnReply(parse: EventParser, answers: Answers, acts: seq<Act>)
    requires Answering(answers) && Runs(parse, answers, START, acts)
    ensures var a := Exec(parse, answers, START, acts).actor;
            && (forall x :: x in a.answered && x.Replied? ==> answers(x.slot) == Spelled(x.reply))
            && ReplyBearing(a.written) == SlotsOf(a.answered) + Outstanding(a)
  {
    hide MadeOf, Spelled;
    forall r: Reply, l: seq<Line> ensures MadeOf(r, l) ==> l == Spelled(r) { MadeOfIsSpelled(r, l); }
    StartIsBalanced(answers);
    RunKeepsInv(parse, answers, START, acts);
  }
}
