/** When later data change what a run dispatches: exactly when they change how many initial events
    the window drops, which a handler can read before any of them happens. */
module LookAhead {
  import opened Causality
  import opened Endings
  import opened EngineModel
  import opened Events
  import opened Options

  /** The events a run dispatches at or before `t`. */
  ghost function DispatchesBy(config: RunConfig, handler: Handler, initial: Reaction, t: Instant): seq<Event> {
    UpTo(EventsOf(RunLoop(config, handler, initial).0.trace), t)
  }

  predicate InTime(config: RunConfig, now: Instant, t: Instant, e: Event) {
    now <= e.OccursAtUtc() <= config.endUtc && e.OccursAtUtc() <= t
  }

  predicate HasInTime(config: RunConfig, now: Instant, t: Instant, requests: seq<Request>) {
    exists r :: r in requests && InTime(config, now, t, r.event)
  }

  /** The initial events are all taken, and one of them is due by `t`: the handler will be called. */
  predicate Due(config: RunConfig, initial: Reaction, t: Instant) {
    initial.ending == Returns && Unrefused(initial.requests, config.startUtc) && HasInTime(config, config.startUtc, t, initial.requests)
  }

  function Origin(config: RunConfig): Line {
    Line(config.startUtc, [], 0, [], [])
  }

  // ----- what waits when dispatch begins

  lemma RequestsSplit(config: RunConfig, now: Instant, t: Instant, requests: seq<Request>)
    requires requests != []
    ensures Unrefused(requests, now) <==> (requests[0].tolerant || requests[0].event.OccursAtUtc() >= now) && Unrefused(requests[1..], now)
    ensures HasInTime(config, now, t, requests) <==> InTime(config, now, t, requests[0].event) || HasInTime(config, now, t, requests[1..])
  {
    assert requests == [requests[0]] + requests[1..];
  }

  lemma {:induction false} JoinAllStops(config: RunConfig, line: Line, requests: seq<Request>, ending: Ending)
    ensures JoinAll(config, line, requests, ending).1.None? <==> ending == Returns && Unrefused(requests, line.now)
    decreases requests
  {
    if requests != [] {
      RequestsSplit(config, line.now, line.now, requests);
      JoinAllStops(config, JoinLine(config, line, requests[0].event), requests[1..], ending);
      JoinAllStops(config, line, requests[1..], ending);
    }
  }

  lemma JoinLineWaits(config: RunConfig, line: Line, e: Event, t: Instant)
    requires InLine(line.pending) && e.OccursAtUtc() >= line.now
    ensures var joined := JoinLine(config, line, e);
      InLine(joined.pending) && (UpTo(joined.pending, t) != [] <==> UpTo(line.pending, t) != [] || InTime(config, line.now, t, e))
  {
    EnqueueStaysInLine(line.pending, e);
    UpToOfEnqueue(line.pending, e, t);
  }

  lemma {:induction false} JoinAllWaits(config: RunConfig, line: Line, requests: seq<Request>, ending: Ending, t: Instant)
    requires InLine(line.pending)
    ensures var (after, stop) := JoinAll(config, line, requests, ending);
      && InLine(after.pending)
      && (stop.None? ==> (UpTo(after.pending, t) != [] <==> UpTo(line.pending, t) != [] || HasInTime(config, line.now, t, requests)))
    decreases requests
  {
    if requests != [] {
      var e := requests[0].event;
      RequestsSplit(config, line.now, t, requests);
      if e.OccursAtUtc() >= line.now {
        JoinLineWaits(config, line, e, t);
        JoinAllWaits(config, JoinLine(config, line, e), requests[1..], ending, t);
      } else if requests[0].tolerant {
        JoinAllWaits(config, line, requests[1..], ending, t);
      }
    }
  }

  lemma DroppedBeforeDispatch(config: RunConfig, initial: Reaction)
    requires config.Valid()
    ensures var (line, stop) := JoinAll(config, Origin(config), initial.requests, initial.ending);
      stop.None? ==> line.beyond == BeyondWindow(config, initial.requests)
  {
    OnlyKnownMatters(config, Origin(config), Origin(config), initial.requests, initial.ending, config.startUtc);
  }

  /** The line a run is served from, if its initial events are all taken. */
  lemma DueIsWaiting(config: RunConfig, initial: Reaction, t: Instant)
    requires config.Valid()
    ensures var (line, stop) := JoinAll(config, Origin(config), initial.requests, initial.ending);
      && InLine(line.pending) && line.history == [] && line.seen == []
      && (Due(config, initial, t) <==> stop.None? && UpTo(line.pending, t) != [])
      && (stop.None? ==> line.beyond == BeyondWindow(config, initial.requests))
  {
    var origin := Origin(config);
    assert UpTo(origin.pending, t) == [];
    JoinAllWaits(config, origin, initial.requests, initial.ending, t);
    JoinAllStops(config, origin, initial.requests, initial.ending);
    JoinAllKeepsHistory(config, origin, initial.requests, initial.ending);
    DroppedBeforeDispatch(config, initial);
  }

  lemma SameKnownSameHead(config: RunConfig, a: Reaction, b: Reaction, t: Instant)
    requires config.Valid() && config.startUtc <= t
    requires KnownBy(a.requests, t) == KnownBy(b.requests, t) && a.ending == b.ending
    ensures var (lineA, stopA) := JoinAll(config, Origin(config), a.requests, a.ending);
      var (lineB, stopB) := JoinAll(config, Origin(config), b.requests, b.ending);
      stopA == stopB && UpTo(lineA.pending, t) == UpTo(lineB.pending, t)
  {
    OnlyKnownMatters(config, Origin(config), Origin(config), a.requests, a.ending, t);
    OnlyKnownMatters(config, Origin(config), Origin(config), b.requests, b.ending, t);
  }

  // ----- runs whose dispatches cannot differ

  lemma NothingBeforeTheStart(config: RunConfig, handler: Handler, initial: Reaction, t: Instant)
    requires config.Valid() && t < config.startUtc
    ensures DispatchesBy(config, handler, initial, t) == []
  {
    RunKeepsInv(config, handler, initial);
    var trace := RunLoop(config, handler, initial).0.trace;
    forall i | 0 <= i < |trace| ensures EventsOf(trace)[i].OccursAtUtc() > t {
      assert trace[i].WellFormed();
    }
    UpToOfLate(EventsOf(trace), t);
  }

  lemma NothingDueNothingDispatched(config: RunConfig, handler: Handler, initial: Reaction, t: Instant)
    requires config.Valid() && !Due(config, initial, t)
    ensures DispatchesBy(config, handler, initial, t) == []
  {
    RunIsFirstComeFirstServed(config, handler, initial);
    DueIsWaiting(config, initial, t);
    var (line, stop) := JoinAll(config, Origin(config), initial.requests, initial.ending);
    if stop.None? {
      HeadDecides(line.pending, t);
      LaterServesNothingEarlier(config, handler, line, t);
    }
  }

  lemma SingleDispatch(config: RunConfig, handler: Handler, initial: Reaction, t: Instant)
    requires config.Valid() && Due(config, initial, t) && config.eventBudget == 1
    ensures var line := JoinAll(config, Origin(config), initial.requests, initial.ending).0;
      UpTo(line.pending, t) != [] && DispatchesBy(config, handler, initial, t) == UpTo(line.pending, t)[..1]
  {
    RunIsFirstComeFirstServed(config, handler, initial);
    RunKeepsInv(config, handler, initial);
    DueIsWaiting(config, initial, t);
    var line := JoinAll(config, Origin(config), initial.requests, initial.ending).0;
    HeadDecides(line.pending, t);
    NextIsServed(config, handler, line);
    var history := EventsOf(RunLoop(config, handler, initial).0.trace);
    assert history == [line.pending[0]];
    assert history[1..] == [] && UpTo(history, t) == [line.pending[0]];
    assert UpTo(line.pending, t)[..1] == [line.pending[0]];
  }

  // ----- a handler that tells two futures apart

  /** What waits at the head is served, whatever happens then. */
  lemma NextIsServed(config: RunConfig, handler: Handler, line: Line)
    requires line.pending != [] && |line.history| < config.eventBudget
    ensures line.history + [line.pending[0]] <= ServeAll(config, handler, line).0.history
  {
    var served := Served(line);
    var reaction := handler(served.history, served.beyond);
    JoinAllKeepsHistory(config, served, reaction.requests, reaction.ending);
    SeenOnlyGrows(config, handler, Serve(config, handler, line).0);
  }

  function AnotherTimer(at: Instant): Request {
    Request(TimerEvent("probe", at, "again"), false)
  }

  /** Fails at its first event if `count` events have been dropped by then; asks for one timer more,
      at the instant in hand, if not. */
  function Probe(count: nat): Handler {
    (history: seq<Event>, beyond: nat) =>
      if beyond == count then Reaction([], Raises)
      else Reaction(if |history| == 1 then [AnotherTimer(history[0].OccursAtUtc())] else [], Returns)
  }

  lemma ProbeFails(config: RunConfig, line: Line)
    requires line.pending != [] && line.history == [] && config.eventBudget >= 2
    ensures ServeAll(config, Probe(line.beyond), line).0.history == [line.pending[0]]
  {
    assert line.history + [line.pending[0]] == [line.pending[0]];
  }

  lemma ProbeGoesOn(config: RunConfig, line: Line, count: nat, t: Instant)
    requires InLine(line.pending) && line.pending != [] && line.history == [] && config.eventBudget >= 2
    requires line.beyond != count && line.pending[0].OccursAtUtc() <= t && line.pending[0].OccursAtUtc() <= config.endUtc
    ensures |UpTo(ServeAll(config, Probe(count), line).0.history, t)| >= 2
  {
    var first := line.pending[0];
    var served, again := Served(line), AnotherTimer(first.OccursAtUtc());
    assert served.history == [first];
    JoinOne(config, served, again.event);
    assert Probe(count)(served.history, served.beyond) == Reaction([again], Returns);
    var next := JoinLine(config, served, again.event);
    assert Serve(config, Probe(count), line) == (next, None);
    HeadIsNoLaterThan(line.pending[1..], again.event);
    NextIsServed(config, Probe(count), next);
    var second, history := next.pending[0], ServeAll(config, Probe(count), next).0.history;
    assert [first] + [second] <= history;
    UpToOfPair(first, second, history, t);
  }

  lemma HeadIsNoLaterThan(pending: seq<Event>, e: Event)
    ensures Enqueue(pending, e) != [] && Enqueue(pending, e)[0].OccursAtUtc() <= e.OccursAtUtc()
  {
  }

  lemma UpToOfPair(x: Event, y: Event, events: seq<Event>, t: Instant)
    requires [x] + [y] <= events && x.OccursAtUtc() <= t && y.OccursAtUtc() <= t
    ensures |UpTo(events, t)| >= 2
  {
    assert events[0] == ([x] + [y])[0] && events[1] == ([x] + [y])[1];
    assert events[1..][0] == y;
  }

  lemma ProbeTellsApart(config: RunConfig, a: Reaction, b: Reaction, t: Instant)
    requires config.Valid() && config.eventBudget >= 2
    requires Due(config, a, t) && Due(config, b, t) && BeyondWindow(config, a.requests) != BeyondWindow(config, b.requests)
    ensures var probe := Probe(BeyondWindow(config, a.requests));
      DispatchesBy(config, probe, a, t) != DispatchesBy(config, probe, b, t)
  {
    var count := BeyondWindow(config, a.requests);
    RunIsFirstComeFirstServed(config, Probe(count), a);
    RunIsFirstComeFirstServed(config, Probe(count), b);
    DueIsWaiting(config, a, t);
    DueIsWaiting(config, b, t);
    var lineA := JoinAll(config, Origin(config), a.requests, a.ending).0;
    var lineB := JoinAll(config, Origin(config), b.requests, b.ending).0;
    HeadDecides(lineA.pending, t);
    HeadDecides(lineB.pending, t);
    ProbeFails(config, lineA);
    UpToIsShorter([lineA.pending[0]], t);
    WaitsInWindow(config, Origin(config), b.requests, b.ending);
    ProbeGoesOn(config, lineB, count, t);
  }

  lemma {:induction false} WaitsInWindow(config: RunConfig, line: Line, requests: seq<Request>, ending: Ending)
    requires InLine(line.pending) && forall x :: x in line.pending ==> x.OccursAtUtc() <= config.endUtc
    ensures forall x :: x in JoinAll(config, line, requests, ending).0.pending ==> x.OccursAtUtc() <= config.endUtc
    decreases requests
  {
    if requests != [] {
      var e := requests[0].event;
      EnqueueStaysInLine(line.pending, e);
      WaitsInWindow(config, JoinLine(config, line, e), requests[1..], ending);
      WaitsInWindow(config, line, requests[1..], ending);
    }
  }

  /** Look-ahead, exactly. Of two sets of initial events that agree up to `t`, no handler can make
      the dispatches up to `t` depend on which it is given, if and only if the window drops equally
      many of either, or nothing is due by `t`, or the budget is one event. */
  lemma DispatchesAgreeIff(config: RunConfig, a: Reaction, b: Reaction, t: Instant)
    requires config.Valid()
    requires KnownBy(a.requests, t) == KnownBy(b.requests, t) && a.ending == b.ending
    ensures (forall handler: Handler :: DispatchesBy(config, handler, a, t) == DispatchesBy(config, handler, b, t)) <==>
            BeyondWindow(config, a.requests) == BeyondWindow(config, b.requests) || !Due(config, a, t) || config.eventBudget == 1
  {
    if t < config.startUtc {
      forall handler: Handler ensures DispatchesBy(config, handler, a, t) == DispatchesBy(config, handler, b, t) {
        NothingBeforeTheStart(config, handler, a, t);
        NothingBeforeTheStart(config, handler, b, t);
      }
    } else {
      SameKnownSameHead(config, a, b, t);
      DueIsWaiting(config, a, t);
      DueIsWaiting(config, b, t);
      if BeyondWindow(config, a.requests) == BeyondWindow(config, b.requests) || !Due(config, a, t) || config.eventBudget == 1 {
        forall handler: Handler ensures DispatchesBy(config, handler, a, t) == DispatchesBy(config, handler, b, t) {
          SameDispatches(config, handler, a, b, t);
        }
      } else {
        ProbeTellsApart(config, a, b, t);
      }
    }
  }

  lemma SameDispatches(config: RunConfig, handler: Handler, a: Reaction, b: Reaction, t: Instant)
    requires config.Valid() && config.startUtc <= t
    requires KnownBy(a.requests, t) == KnownBy(b.requests, t) && a.ending == b.ending
    requires BeyondWindow(config, a.requests) == BeyondWindow(config, b.requests) || !Due(config, a, t) || config.eventBudget == 1
    ensures DispatchesBy(config, handler, a, t) == DispatchesBy(config, handler, b, t)
  {
    SameKnownSameHead(config, a, b, t);
    DueIsWaiting(config, a, t);
    DueIsWaiting(config, b, t);
    if !Due(config, a, t) {
      NothingDueNothingDispatched(config, handler, a, t);
      NothingDueNothingDispatched(config, handler, b, t);
    } else if config.eventBudget == 1 {
      SingleDispatch(config, handler, a, t);
      SingleDispatch(config, handler, b, t);
    } else {
      FutureCannotReachThePast(config, handler, a, b, t);
    }
  }

  /** Two runs that differ only in one event past the window's end, which neither dispatches, and a
      handler whose dispatches up to the first event's instant differ between them. */
  lemma LaterDataChangeADispatch()
    ensures exists config: RunConfig, handler: Handler, a: Reaction, b: Reaction, t: Instant ::
              && config.Valid() && a.ending == b.ending && KnownBy(a.requests, t) == KnownBy(b.requests, t)
              && DispatchesBy(config, handler, a, t) != DispatchesBy(config, handler, b, t)
  {
    var config := RunConfig(0, 9, 9);
    var now, late := Request(MarketDataEvent(Tick("x", 5, 1.0)), false), Request(MarketDataEvent(Tick("x", 10, 1.0)), false);
    var a, b := Reaction([now], Returns), Reaction([now, late], Returns);
    assert [now][1..] == [] && [now, late][1..] == [late] && [late][1..] == [];
    assert BeyondWindow(config, [late]) == 1 && KnownBy([late], 5) == [];
    assert KnownBy(a.requests, 5) == KnownBy(b.requests, 5) == [now];
    assert now in a.requests && now in b.requests && InTime(config, 0, 5, now.event);
    ProbeTellsApart(config, a, b, 5);
  }
}
