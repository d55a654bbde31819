/**
  Reply lines nobody asked for: a trailing body, or an unsolicited ending. What the guard in the actor does
  with them depends on nothing but whether a command is outstanding when they arrive.
 */
module StrayLines {
  import opened Wrappers
  import opened Actor

  lemma {:induction false} RouteData(parse: EventParser, a: State, lines: seq<Line>)
    requires !a.halted && a.pending.Some? && forall l :: l in lines ==> Classify(l).Data?
    ensures RouteAll(parse, a, lines) == a.(accumulated := a.accumulated + lines)
    decreases |lines|
  {
    hide Classify;
    if lines == [] {
      assert a.accumulated + lines == a.accumulated;
    } else {
      assert lines[0] in lines;
      RouteData(parse, RouteLine(parse, a, lines[0]), lines[1..]);
      assert a.accumulated + [lines[0]] + lines[1..] == a.accumulated + lines;
    }
  }

  lemma {:induction false} RouteConcat(parse: EventParser, a: State, x: seq<Line>, y: seq<Line>)
    ensures RouteAll(parse, a, x + y) == RouteAll(parse, RouteAll(parse, a, x), y)
    decreases |x|
  {
    hide RouteLine;
    if x == [] {
      assert x + y == y;
    } else {
      assert (x + y)[0] == x[0] && (x + y)[1..] == x[1..] + y;
      RouteConcat(parse, RouteLine(parse, a, x[0]), x[1..], y);
    }
  }

  /** Reply lines that arrive while nothing is outstanding are dropped without a trace. */
  lemma {:induction false} EarlyTailIsDropped(parse: EventParser, a: State, tail: seq<Line>)
    requires a.pending.None? && a.accumulated == [] && forall l :: l in tail ==> !Classify(l).Event?
    ensures RouteAll(parse, a, tail) == a
    decreases |tail|
  {
    hide Classify;
    if tail != [] {
      assert tail[0] in tail;
      EarlyTailIsDropped(parse, a, tail[1..]);
    }
  }

  /** Every line that is no notification is remembered while a command is outstanding: as body, or in a reply. */
  lemma {:induction false} StraysAreRemembered(parse: EventParser, a: State, lines: seq<Line>)
    requires !a.halted && (a.pending.None? ==> a.accumulated == []) && forall l :: l in lines ==> !Classify(l).Event?
    ensures var b := RouteAll(parse, a, lines);
            && |a.answered| <= |b.answered|
            && (a.pending.Some? && |a.answered| == |b.answered| ==> |b.accumulated| == |a.accumulated| + |lines|)
    decreases |lines|
  {
    hide Classify;
    if lines != [] {
      assert lines[0] in lines;
      StraysAreRemembered(parse, RouteLine(parse, a, lines[0]), lines[1..]);
    }
  }

  /**
    The guard against desync, exactly. Stray reply lines leave a live actor as it was if and only if nothing was
    outstanding when they arrived: it discards before the next command is written, and never after.
   */
  lemma StraysAreIgnoredIff(parse: EventParser, a: State, strays: seq<Line>)
    requires !a.halted && (a.pending.None? ==> a.accumulated == [])
    requires strays != [] && forall l :: l in strays ==> !Classify(l).Event?
    ensures RouteAll(parse, a, strays) == a <==> a.pending.None?
  {
    hide Classify, RouteAll;
    StraysAreRemembered(parse, a, strays);
    if a.pending.None? {
      EarlyTailIsDropped(parse, a, strays);
    }
  }

  /**
    A stray ending while a command is outstanding is that command's reply; its own answer, when it comes, is
    dropped.
   */
  lemma StrayEndingBecomesReply(parse: EventParser, a: State, stray: Line, own: seq<Line>)
    requires !a.halted && a.pending.Some? && IsTerminal(Classify(stray)) && forall l :: l in own ==> !Classify(l).Event?
    ensures RouteAll(parse, a, [stray] + own) ==
            a.(accumulated := [], pending := None,
               answered := a.answered +
                 [Replied(a.pending.value, Finish(a.accumulated, Classify(stray)), a.accumulated + [stray])])
  {
    hide Classify;
    var lines := [stray] + own;
    assert lines[0] == stray && lines[1..] == own;
    EarlyTailIsDropped(parse, RouteLine(parse, a, stray), own);
  }

  /** A stray tail while a command is outstanding becomes the head of that command's reply. */
  lemma LateTailBecomesNextBody(parse: EventParser, a: State, tail: seq<Line>, body: seq<Line>, end: Line)
    requires !a.halted && a.pending.Some? && a.accumulated == [] && IsTerminal(Classify(end))
    requires (forall l :: l in tail ==> Classify(l).Data?) && (forall l :: l in body ==> Classify(l).Data?)
    ensures RouteAll(parse, a, tail + body + [end]).answered ==
            a.answered + [Replied(a.pending.value, Finish(tail + body, Classify(end)), tail + body + [end])]
  {
    RouteConcat(parse, a, tail + body, [end]);
    RouteData(parse, a, tail + body);
    assert a.accumulated + (tail + body) == tail + body;
    var one: seq<Line> := [end];
    var b := a.(accumulated := tail + body);
    assert one[1..] == [];
    assert RouteAll(parse, b, one) == RouteAll(parse, RouteLine(parse, b, end), []);
  }
}
