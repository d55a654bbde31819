/**
  What the actor's subscribers read: the fold of every notification among the bytes handed to it so far, however
  they were cut into reads, for as long as the channel lives, and "down" once it has ended, whatever ended it.
 */
module TunnelFeed {
  import opened Wrappers
  import opened Bytes
  import opened Codec
  import opened Actor
  import Tunnel

  // ----- the events of a byte stream -----------------------------------------------------------

  function BytesOf(round: Round): Octets { if round.progress.Read? then round.progress.bytes else [] }

  /** Every byte a script hands to the actor, in order. */
  function BytesRead(script: seq<Round>): Octets {
    if script == [] then [] else BytesOf(script[0]) + BytesRead(script[1..])
  }

  /** The lines that begin with `>`, parsed, in order. */
  function EventsOf(parse: EventParser, lines: seq<Line>): seq<Tunnel.Event> {
    if lines == [] then []
    else (if lines[0] != [] && lines[0][0] == 62 then [parse(lines[0])] else []) + EventsOf(parse, lines[1..])
  }

  /** The notifications in a byte stream, of whole lines only. */
  function Heard(parse: EventParser, bytes: Octets): seq<Tunnel.Event> { EventsOf(parse, Decoded(Lines(bytes))) }

  lemma {:induction false} EventsConcat(parse: EventParser, a: seq<Line>, b: seq<Line>)
    ensures EventsOf(parse, a + b) == EventsOf(parse, a) + EventsOf(parse, b)
    decreases |a|
  {
    if a == [] {
      assert a + b == b;
    } else {
      assert (a + b)[1..] == a[1..] + b;
      EventsConcat(parse, a[1..], b);
    }
  }

  /** More bytes only add events: those of the lines they complete. */
  lemma HeardGrows(parse: EventParser, seen: Octets, more: Octets)
    ensures Heard(parse, seen + more) == Heard(parse, seen) + EventsOf(parse, Decoded(Lines(Tail(seen) + more)))
    ensures Tail(seen + more) == Tail(Tail(seen) + more)
  {
    hide Lines, Tail, Decoded, EventsOf;
    SplitAcross(seen, more);
    DecodedConcat(Lines(seen), Lines(Tail(seen) + more));
    EventsConcat(parse, Decoded(Lines(seen)), Decoded(Lines(Tail(seen) + more)));
  }

  lemma {:induction false} AtPrefix(events: seq<Tunnel.Event>, more: seq<Tunnel.Event>, n: nat)
    requires n <= |events|
    ensures Tunnel.At(events + more, n) == Tunnel.At(events, n)
  {
    hide Tunnel.Fold;
    if n > 0 {
      AtPrefix(events, more, n - 1);
    }
  }

  // ----- what the cell holds -------------------------------------------------------------------

  /** A cell that says "down", with the generation it had after some prefix of the events. */
  ghost predicate DownAfter(cell: Tunnel.TunnelState, events: seq<Tunnel.Event>) {
    exists k: nat :: k <= |events| && cell == Tunnel.TunnelState(false, None, Tunnel.At(events, k).cell.generation)
  }

  /** The published state of an actor that has routed these events. */
  ghost predicate Follows(a: State, events: seq<Tunnel.Event>) {
    if a.halted then DownAfter(a.tunnel.cell, events)
    else !a.tunnel.dead && a.tunnel == Tunnel.At(events, |events|)
  }

  lemma DownLater(cell: Tunnel.TunnelState, events: seq<Tunnel.Event>, more: seq<Tunnel.Event>)
    requires DownAfter(cell, events)
    ensures DownAfter(cell, events + more)
  {
    var k: nat :| k <= |events| && cell == Tunnel.TunnelState(false, None, Tunnel.At(events, k).cell.generation);
    AtPrefix(events, more, k);
  }

  lemma HaltFollows(a: State, events: seq<Tunnel.Event>)
    requires Follows(a, events)
    ensures Follows(Halt(a), events)
  {
    hide Tunnel.At;
    if !a.halted {
      assert Halt(a).tunnel.cell == Tunnel.TunnelState(false, None, Tunnel.At(events, |events|).cell.generation);
    }
  }

  lemma EnqueueFollows(a: State, c: Command, events: seq<Tunnel.Event>)
    requires Follows(a, events)
    ensures Follows(Enqueue(a, c), events)
  {
  }

  lemma EventOfOne(parse: EventParser, line: Line)
    ensures EventsOf(parse, [line]) == if line != [] && line[0] == 62 then [parse(line)] else []
  {
    var one: seq<Line> := [line];
    assert one[0] == line && one[1..] == [];
  }

  lemma RouteFollows(parse: EventParser, a: State, line: Line, events: seq<Tunnel.Event>)
    requires Follows(a, events)
    ensures Follows(RouteLine(parse, a, line), events + EventsOf(parse, [line]))
    ensures !a.halted ==>
              var all := events + EventsOf(parse, [line]);
              RouteLine(parse, a, line).halted == Tunnel.At(all, |all|).dead
  {
    var one := EventsOf(parse, [line]);
    EventOfOne(parse, line);
    hide EventsOf, IsHold, Tunnel.Observe;
    if a.halted {
      DownLater(a.tunnel.cell, events, one);
    } else if Classify(line).Event? {
      var all := events + one;
      AtPrefix(events, one, |events|);
      assert one == [parse(line)] && Tunnel.At(all, |all|) == Tunnel.Fold(a.tunnel, parse(line));
      if Tunnel.Fold(a.tunnel, parse(line)).dead {
        assert DownAfter(RouteLine(parse, a, line).tunnel.cell, all) by {
          assert RouteLine(parse, a, line).tunnel.cell ==
                 Tunnel.TunnelState(false, None, Tunnel.At(all, |all|).cell.generation);
        }
      }
    } else {
      assert one == [] && events + one == events;
    }
  }

  lemma {:induction false} RouteAllFollows(parse: EventParser, a: State, lines: seq<Line>, events: seq<Tunnel.Event>)
    requires Follows(a, events)
    ensures var all := events + EventsOf(parse, lines);
            && Follows(RouteAll(parse, a, lines), all)
            && (!a.halted ==> RouteAll(parse, a, lines).halted == Tunnel.At(all, |all|).dead)
    decreases |lines|
  {
    hide RouteLine, Follows, EventsOf, Tunnel.At, Tunnel.Fold;
    if lines == [] {
      assert EventsOf(parse, lines) == [] && events + [] == events by {
        NoLinesNoEvents(parse);
      }
      assert !a.halted ==> !Tunnel.At(events, |events|).dead by {
        FollowsMeans(a, events);
      }
    } else {
      var b, one := RouteLine(parse, a, lines[0]), EventsOf(parse, [lines[0]]);
      var rest := EventsOf(parse, lines[1..]);
      RouteFollows(parse, a, lines[0], events);
      RouteAllFollows(parse, b, lines[1..], events + one);
      EventsConcat(parse, [lines[0]], lines[1..]);
      assert [lines[0]] + lines[1..] == lines && events + one + rest == events + EventsOf(parse, lines);
      if !a.halted && b.halted {
        HaltedStays(parse, b, lines[1..]);
        var so, all := events + one, events + one + rest;
        AtPrefix(so, rest, |so|);
        Tunnel.DeadStaysDown(all, |so|, |all|);
      }
    }
  }

  lemma NoLinesNoEvents(parse: EventParser)
    ensures EventsOf(parse, []) == []
  {
  }

  lemma FollowsMeans(a: State, events: seq<Tunnel.Event>)
    requires Follows(a, events)
    ensures !a.halted ==> !Tunnel.At(events, |events|).dead
  {
  }

  // ----- over a whole run ----------------------------------------------------------------------

  /** The actor after these bytes: its published state follows their events, its buffer is their unterminated tail. */
  ghost predicate InStep(parse: EventParser, a: State, seen: Octets) {
    && Follows(a, Heard(parse, seen))
    && (!a.halted ==> a.splitter.buffered == Tail(seen) && |Tail(seen)| <= 8192)
  }

  lemma FlushInStep(parse: EventParser, a: State, writes: nat, seen: Octets)
    requires InStep(parse, a, seen)
    ensures InStep(parse, Flush(a, writes), seen)
    decreases |a.outbox|
  {
    hide Heard, Tail;
    HaltFollows(a, Heard(parse, seen));
    if !a.halted && a.pending.None? && a.outbox != [] && writes > 0 {
      FlushInStep(parse, FlushOne(a), writes - 1, seen);
    }
  }

  /** One read, and exactly when it ends the channel: on too long a tail, or on an up-block without a device. */
  lemma ReceiveInStep(parse: EventParser, a: State, seen: Octets, bytes: Octets)
    requires InStep(parse, a, seen)
    ensures var b, events := Receive(parse, a, bytes), Heard(parse, seen + bytes);
            && InStep(parse, b, seen + bytes)
            && (!a.halted ==>
                  (b.halted <==> |Tail(seen + bytes)| > 8192 || Tunnel.At(events, |events|).dead))
  {
    hide Lines, Tail, Decoded, EventsOf, RouteAll, Tunnel.At, Heard;
    var known := Heard(parse, seen);
    HeardGrows(parse, seen, bytes);
    var more := EventsOf(parse, Decoded(Lines(Tail(seen) + bytes)));
    if a.halted {
      DownLater(a.tunnel.cell, known, more);
    } else {
      var p := Push(a.splitter, bytes);
      if p.Split? {
        var b := a.(splitter := p.next);
        assert Follows(b, known);
        RouteAllFollows(parse, b, p.lines, known);
        RouteAllKeepsSplitter(parse, b, p.lines);
      } else {
        HaltFollows(a, known);
        assert DownAfter(Halt(a).tunnel.cell, known);
        DownLater(Halt(a).tunnel.cell, known, more);
      }
    }
  }

  lemma TurnInStep(parse: EventParser, a: State, round: Round, seen: Octets)
    requires InStep(parse, a, seen)
    ensures InStep(parse, Turn(parse, a, round), seen + BytesOf(round))
  {
    hide Receive, Tail, Heard, Follows, Flush;
    var f := Flush(a, round.writes);
    FlushInStep(parse, a, round.writes, seen);
    HaltFollows(f, Heard(parse, seen));
    ReceiveInStep(parse, f, seen, BytesOf(round));
    if f.halted {
      LaterInStep(parse, f, seen, BytesOf(round));
    } else if round.progress.Asked? {
      assert Follows(Enqueue(f, round.progress.command), Heard(parse, seen)) by {
        EnqueueFollows(f, round.progress.command, Heard(parse, seen));
      }
    }
    assert seen + [] == seen;
  }

  lemma LaterInStep(parse: EventParser, a: State, seen: Octets, more: Octets)
    requires InStep(parse, a, seen) && a.halted
    ensures InStep(parse, a, seen + more)
  {
    hide Lines, Tail, Decoded, EventsOf, Heard;
    HeardGrows(parse, seen, more);
    DownLater(a.tunnel.cell, Heard(parse, seen), EventsOf(parse, Decoded(Lines(Tail(seen) + more))));
  }

  lemma {:induction false} DriveInStep(parse: EventParser, a: State, script: seq<Round>, seen: Octets)
    requires InStep(parse, a, seen)
    ensures InStep(parse, Drive(parse, a, script), seen + BytesRead(script))
    decreases |script|
  {
    hide InStep, Turn;
    if script == [] {
      assert seen + BytesRead(script) == seen;
    } else {
      TurnInStep(parse, a, script[0], seen);
      DriveInStep(parse, Turn(parse, a, script[0]), script[1..], seen + BytesOf(script[0]));
      assert seen + BytesOf(script[0]) + BytesRead(script[1..]) == seen + BytesRead(script);
    }
  }

  lemma StartInStep(parse: EventParser)
    ensures InStep(parse, INIT, [])
  {
    NoLineYet([]);
    assert Decoded(Lines([])) == [];
    NoLinesNoEvents(parse);
  }

  /**
    What subscribers read after any run at all. While the channel lives, the published state is the fold of the
    notifications among all bytes read, in order, and depends on nothing else: not on how the bytes were cut, what
    was asked or written, or which replies came between. Once it has ended, for whatever reason, they read "down":
    disconnected, no identity, and a generation the fold had at some point.
   */
  lemma SubscribersReadTheFold(parse: EventParser, script: seq<Round>)
    ensures var a, events := Drive(parse, INIT, script), Heard(parse, BytesRead(script));
            && (!a.halted ==> a.tunnel == Tunnel.At(events, |events|))
            && (a.halted ==>
                  && !a.tunnel.cell.connected && a.tunnel.cell.identity == None
                  && exists k: nat :: k <= |events| && a.tunnel.cell.generation == Tunnel.At(events, k).cell.generation)
  {
    hide Drive, Heard, Tunnel.At;
    StartInStep(parse);
    DriveInStep(parse, INIT, script, []);
    assert [] + BytesRead(script) == BytesRead(script);
    var a, events := Drive(parse, INIT, script), Heard(parse, BytesRead(script));
    if a.halted {
      var k: nat :|
        k <= |events| && a.tunnel.cell == Tunnel.TunnelState(false, None, Tunnel.At(events, k).cell.generation);
    }
  }

  // ----- exactly when the channel ends ---------------------------------------------------------

  /** How many writes an idle actor wants to make: up to the first command that will be answered. */
  function Wants(outbox: seq<Command>): nat {
    if outbox == [] then 0 else if outbox[0].expectsReply then 1 else 1 + Wants(outbox[1..])
  }

  predicate Awaits(a: State) { a.pending.Some? || exists c :: c in a.outbox && c.expectsReply }

  lemma {:induction false} FlushEndsIff(a: State, writes: nat)
    requires !a.halted
    ensures Flush(a, writes).halted <==> a.pending.None? && writes < Wants(a.outbox)
    ensures !Flush(a, writes).halted ==> (Flush(a, writes).pending.Some? <==> Awaits(a))
    decreases |a.outbox|
  {
    if a.pending.None? && a.outbox != [] && writes > 0 {
      var b := FlushOne(a);
      FlushEndsIff(b, writes - 1);
      assert a.outbox == [a.outbox[0]] + b.outbox;
      assert a.outbox[0].expectsReply ==> a.outbox[0] in a.outbox;
    }
  }

  lemma {:induction false} DriveSnoc(parse: EventParser, a: State, script: seq<Round>, round: Round)
    ensures Drive(parse, a, script + [round]) == Turn(parse, Drive(parse, a, script), round)
    ensures BytesRead(script + [round]) == BytesRead(script) + BytesOf(round)
    decreases |script|
  {
    hide Turn;
    var all := script + [round];
    if script == [] {
      assert all == [round] && all[1..] == [];
      assert Drive(parse, a, all) == Drive(parse, Turn(parse, a, round), []);
      assert BytesRead(all) == BytesOf(round) + BytesRead([]);
    } else {
      assert all[0] == script[0] && all[1..] == script[1..] + [round];
      DriveSnoc(parse, Turn(parse, a, script[0]), script[1..], round);
    }
  }

  /**
    A live channel ends in a round for one of these reasons, and for no other: a write it wanted to make failed; the
    peer closed or the read failed; the callers are gone; a reply was awaited and did not come in time; the bytes read
    so far leave an unterminated tail over 8192 bytes; or an up-block among their notifications closed without a device.
   */
  lemma ChannelEndsIff(parse: EventParser, script: seq<Round>, round: Round)
    requires !Drive(parse, INIT, script).halted
    ensures var a, seen := Drive(parse, INIT, script), BytesRead(script + [round]);
            var events := Heard(parse, seen);
            Drive(parse, INIT, script + [round]).halted <==>
              || (a.pending.None? && round.writes < Wants(a.outbox))
              || round.progress in {Read([]), ReadFails, NoMoreCommands}
              || (round.progress == Expired && Awaits(a))
              || |Tail(seen)| > 8192 || Tunnel.At(events, |events|).dead
  {
    hide Drive, Heard, Tail, Flush, Receive, Wants, Awaits, Tunnel.At;
    var a, before := Drive(parse, INIT, script), BytesRead(script);
    DriveSnoc(parse, INIT, script, round);
    StartInStep(parse);
    DriveInStep(parse, INIT, script, []);
    assert [] + before == before;
    FlushEndsIff(a, round.writes);
    FlushInStep(parse, a, round.writes, before);
    ReceiveInStep(parse, Flush(a, round.writes), before, BytesOf(round));
    LiveMeans(parse, a, before);
    assert before + [] == before;
  }

  lemma LiveMeans(parse: EventParser, a: State, seen: Octets)
    requires InStep(parse, a, seen) && !a.halted
    ensures var events := Heard(parse, seen);
            !Tunnel.At(events, |events|).dead && |Tail(seen)| <= 8192
  {
  }
}
