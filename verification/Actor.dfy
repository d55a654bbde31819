/**
  The management-channel actor: one command in flight, no correlation ids, notifications anywhere, reads
  that end anywhere. The actor is a function of what it reads and is asked to send; `MgmtSystem` puts it
  opposite a peer.
 */
module Actor {
  import opened Wrappers
  import opened Bytes
  import opened Codec
  import Tunnel

  const OUTBOX_LIMIT := 32

  type Line = Octets

  // ----- frames and replies --------------------------------------------------------------------

  const SUCCESS: Octets := [83, 85, 67, 67, 69, 83, 83, 58, 32]
  const ERROR: Octets := [69, 82, 82, 79, 82, 58, 32]
  const END: Octets := [69, 78, 68]
  const HOLD: Octets := [72, 79, 76, 68]

  datatype Frame = Event | Success(text: Octets) | Error(text: Octets) | End | Data

  function Classify(line: Line): Frame {
    if line != [] && line[0] == 62 then Event
    else if SUCCESS <= line then Success(line[|SUCCESS|..])
    else if ERROR <= line then Error(line[|ERROR|..])
    else if line == END then End
    else Data
  }

  /** The text of a notification before its first colon is `HOLD`. */
  predicate IsHold(line: Line) {
    |line| >= 5 && line[0] == 62 && line[1..5] == HOLD && (|line| == 5 || line[5] == 58)
  }

  datatype Status = Succeeded | Failed | Ended

  datatype Reply = Reply(status: Status, text: Octets, lines: seq<Line>)

  predicate IsTerminal(f: Frame) { f.Success? || f.Error? || f.End? }

  /** The reply a terminal frame completes over the body accumulated so far. */
  function Finish(body: seq<Line>, f: Frame): Reply
    requires IsTerminal(f)
  {
    match f
    case Success(text) => Reply(Succeeded, text, body)
    case Error(text) => Reply(Failed, text, body)
    case End => Reply(Ended, [], body)
  }

  // ----- the actor -----------------------------------------------------------------------------

  /** `wanted` when a caller waits for the reply; `expectsReply` false only for a command known to get none. */
  datatype Command = Command(text: Octets, wanted: bool, expectsReply: bool)

  const HOLD_RELEASE := Command([104, 111, 108, 100, 32, 114, 101, 108, 101, 97, 115, 101], false, true)

  /** A command as written: `index` counts all commands written before it. */
  datatype Slot = Slot(index: nat, command: Command)

  /** How a slot was given up: with a reply, and the lines it was made from, or without one. */
  datatype Answer = Replied(slot: Slot, reply: Reply, heard: seq<Line>) | Lost(slot: Slot)

  datatype State = State(
    splitter: LineSplitter,
    accumulated: seq<Line>,
    outbox: seq<Command>,
    pending: Option<Slot>,
    tunnel: Tunnel.Channel,
    written: seq<Slot>,
    answered: seq<Answer>,
    halted: bool)

  const INIT := State(
    LineSplitter([]), [], [], None,
    Tunnel.Channel(Tunnel.DEFAULT_TRACKER, Tunnel.INITIAL_STATE, false), [], [], false)

  type EventParser = Line -> Tunnel.Event

  /** Every exit answers the pending command, if any, without a reply, and tells subscribers the tunnel is down. */
  function Halt(a: State): State {
    a.(halted := true, pending := None,
       answered := a.answered + (if a.pending.Some? then [Lost(a.pending.value)] else []),
       tunnel := a.tunnel.(cell := Tunnel.AdvancedTo(a.tunnel.cell, Tunnel.DEFAULT_TRACKER), dead := true))
  }

  /** One write, if nothing is outstanding and something is queued. */
  function FlushOne(a: State): State {
    if a.halted || a.pending.Some? || a.outbox == [] then a
    else
      var slot := Slot(|a.written|, a.outbox[0]);
      a.(outbox := a.outbox[1..], written := a.written + [slot],
         pending := if slot.command.expectsReply then Some(slot) else None)
  }

  /**
    Writes until something is outstanding or nothing is queued; a write after the first `writes` fails and
    ends it all.
   */
  function Flush(a: State, writes: nat): State
    decreases |a.outbox|
  {
    if a.halted || a.pending.Some? || a.outbox == [] then a
    else if writes == 0 then Halt(a)
    else Flush(FlushOne(a), writes - 1)
  }

  /** One line off the wire. With nothing outstanding a reply line is discarded, never kept for the next command. */
  function RouteLine(parse: EventParser, a: State, line: Line): State {
    var frame := Classify(line);
    if a.halted then a
    else if frame.Event? then
      var outbox := if IsHold(line) && |a.outbox| < OUTBOX_LIMIT then a.outbox + [HOLD_RELEASE] else a.outbox;
      var b := a.(outbox := outbox, tunnel := Tunnel.Fold(a.tunnel, parse(line)));
      if b.tunnel.dead then Halt(b) else b
    else if a.pending.None? then a.(accumulated := [])
    else if frame.Data? then a.(accumulated := a.accumulated + [line])
    else
      a.(accumulated := [], pending := None,
         answered := a.answered +
           [Replied(a.pending.value, Finish(a.accumulated, frame), a.accumulated + [line])])
  }

  function RouteAll(parse: EventParser, a: State, lines: seq<Line>): State
    decreases |lines|
  {
    if lines == [] then a else RouteAll(parse, RouteLine(parse, a, lines[0]), lines[1..])
  }

  /** One read: split, keep the tail, route what is complete; an overlong line ends the channel. */
  function Receive(parse: EventParser, a: State, chunk: Octets): State {
    if a.halted then a
    else match Push(a.splitter, chunk)
      case LineTooLong(_) => Halt(a)
      case Split(next, lines) => RouteAll(parse, a.(splitter := next), lines)
  }

  /** A command from a caller; the channel is not polled while the outbox is full. */
  function Enqueue(a: State, c: Command): State {
    if a.halted || |a.outbox| >= OUTBOX_LIMIT then a else a.(outbox := a.outbox + [c])
  }

  // ----- the actor as it runs ------------------------------------------------------------------

  datatype Progress = Read(bytes: Octets) | ReadFails | Asked(command: Command) | NoMoreCommands | Expired

  /** One round of the loop: how many writes succeed in it, and what is ready after them. */
  datatype Round = Round(writes: nat, progress: Progress)

  /** Write what can be written, then act on whatever was ready. */
  function Turn(parse: EventParser, a: State, round: Round): State {
    var f := Flush(a, round.writes);
    if f.halted then f
    else match round.progress
      case Read(bytes) => if bytes == [] then Halt(f) else Receive(parse, f, bytes)
      case ReadFails => Halt(f)
      case Asked(c) => Enqueue(f, c)
      case NoMoreCommands => Halt(f)
      case Expired => if f.pending.Some? then Halt(f) else f
  }

  function Drive(parse: EventParser, a: State, script: seq<Round>): State
    decreases |script|
  {
    if script == [] then a else Drive(parse, Turn(parse, a, script[0]), script[1..])
  }

  class Task {
    const parse: EventParser
    var splitter: LineSplitter
    var accumulated: seq<Line>
    var outbox: seq<Command>
    var pending: Option<Slot>
    var tunnel: Tunnel.Channel
    var written: seq<Slot>
    var answered: seq<Answer>
    var halted: bool

    constructor (parse: EventParser)
      ensures this.parse == parse && View() == INIT
    {
      this.parse := parse;
      splitter, accumulated, outbox, pending := LineSplitter([]), [], [], None;
      tunnel := Tunnel.Channel(Tunnel.DEFAULT_TRACKER, Tunnel.INITIAL_STATE, false);
      written, answered, halted := [], [], false;
    }

    function View(): State
      reads this
    {
      State(splitter, accumulated, outbox, pending, tunnel, written, answered, halted)
    }

    method AnswerLost()
      modifies this`answered, this`pending
      ensures answered == old(answered) + (if old(pending).Some? then [Lost(old(pending).value)] else [])
      ensures pending == None
    {
      if pending.Some? {
        answered := answered + [Lost(pending.value)];
      }
      pending := None;
    }

    method Stop()
      modifies this
      ensures View() == Halt(old(View()))
    {
      AnswerLost();
      halted := true;
      tunnel := tunnel.(cell := Tunnel.AdvancedTo(tunnel.cell, Tunnel.DEFAULT_TRACKER), dead := true);
    }

    method Route(line: Line)
      requires !halted
      modifies this
      ensures View() == RouteLine(parse, old(View()), line)
      ensures !halted ==>
                tunnel == if line != [] && line[0] == 62 then Tunnel.Fold(old(tunnel), parse(line)) else old(tunnel)
      ensures halted ==> !tunnel.cell.connected && tunnel.cell.identity == None
    {
      var frame := Classify(line);
      if frame.Event? {
        if IsHold(line) && |outbox| < OUTBOX_LIMIT {
          outbox := outbox + [HOLD_RELEASE];
        }
        tunnel := Tunnel.Fold(tunnel, parse(line));
        if tunnel.dead {
          Stop();
        }
        return;
      }
      if pending.None? {
        accumulated := [];
        return;
      }
      if frame.Data? {
        accumulated := accumulated + [line];
        return;
      }
      answered := answered + [Replied(pending.value, Finish(accumulated, frame), accumulated + [line])];
      pending, accumulated := None, [];
    }

    method OnRead(bytes: Octets)
      requires !halted
      modifies this
      ensures View() == Receive(parse, old(View()), bytes)
    {
      hide RouteLine, Halt;
      var pushed := PushChunk(splitter, bytes);
      if pushed.LineTooLong? {
        Stop();
        return;
      }
      splitter := pushed.next;
      var lines := pushed.lines;
      ghost var goal := RouteAll(parse, View(), lines);
      var i := 0;
      while i < |lines| && !halted
        invariant 0 <= i <= |lines|
        invariant RouteAll(parse, View(), lines[i..]) == goal
      {
        Route(lines[i]);
        assert lines[i..][1..] == lines[i + 1..];
        i := i + 1;
      }
      if halted {
        HaltedStays(parse, View(), lines[i..]);
      }
    }

    /** The loop of `drive`: flush before every wait, then one event. */
    method Loop(script: seq<Round>)
      modifies this
      ensures View() == Drive(parse, old(View()), script)
    {
      hide Receive, Halt, FlushOne;
      ghost var goal := Drive(parse, View(), script);
      var i := 0;
      while i < |script|
        invariant 0 <= i <= |script|
        invariant Drive(parse, View(), script[i..]) == goal
      {
        assert script[i..][1..] == script[i + 1..];
        FlushOutbox(script[i].writes);
        if !halted {
          match script[i].progress
          case Read(bytes) =>
            if bytes == [] {
              Stop();
            } else {
              OnRead(bytes);
            }
          case ReadFails =>
            Stop();
          case Asked(c) =>
            if |outbox| < OUTBOX_LIMIT {
              outbox := outbox + [c];
            }
          case NoMoreCommands =>
            Stop();
          case Expired =>
            if pending.Some? {
              Stop();
            }
        }
        i := i + 1;
      }
    }

    method FlushOutbox(writes: nat)
      modifies this
      ensures View() == Flush(old(View()), writes)
    {
      hide Halt;
      ghost var goal := Flush(View(), writes);
      var left := writes;
      while !halted && pending.None? && outbox != []
        invariant Flush(View(), left) == goal
        decreases !halted, |outbox|
      {
        if left == 0 {
          Stop();
          return;
        }
        left := left - 1;
        var slot := Slot(|written|, outbox[0]);
        written := written + [slot];
        outbox := outbox[1..];
        if slot.command.expectsReply {
          pending := Some(slot);
        }
      }
    }
  }

  lemma {:induction false} HaltedStays(parse: EventParser, a: State, lines: seq<Line>)
    requires a.halted
    ensures RouteAll(parse, a, lines) == a
    decreases |lines|
  {
    if lines != [] {
      HaltedStays(parse, a, lines[1..]);
    }
  }

  lemma {:induction false} RouteAllKeepsSplitter(parse: EventParser, a: State, lines: seq<Line>)
    ensures RouteAll(parse, a, lines).splitter == a.splitter
    decreases |lines|
  {
    hide Classify, IsHold;
    if lines != [] {
      RouteAllKeepsSplitter(parse, RouteLine(parse, a, lines[0]), lines[1..]);
    }
  }
}
