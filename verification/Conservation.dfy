/** What a run dispatches is what was asked for: told from the calls into foreign code alone, without
    queue, line or clock. */
module Conservation {
  import opened Causality
  import opened EngineModel
  import opened Events
  import opened Options
  import opened Sequences

  /** The events of a call made at an instant that are due in the window: not before that instant,
      and not past the window's end, the end itself included. */
  function Due(config: RunConfig, now: Instant, requests: seq<Request>): seq<Event> {
    if requests == [] then []
    else
      var e := requests[0].event;
      (if now <= e.OccursAtUtc() <= config.endUtc then [e] else []) + Due(config, now, requests[1..])
  }

  /** How many of them lie past the window's end. */
  function Past(config: RunConfig, now: Instant, requests: seq<Request>): nat {
    if requests == [] then 0
    else
      var e := requests[0].event;
      (if now <= e.OccursAtUtc() && config.endUtc < e.OccursAtUtc() then 1 else 0) + Past(config, now, requests[1..])
  }

  /** All events asked for: by the initial iterable at the start of the window, and by the handler
      each time it was called, at the instant of the event it was called with. */
  function AskedFor(config: RunConfig, handler: Handler, initial: Reaction, events: seq<Event>, seen: seq<nat>): seq<Event>
    requires |events| == |seen|
    decreases |events|
  {
    if events == [] then Due(config, config.startUtc, initial.requests)
    else
      var n := |events| - 1;
      AskedFor(config, handler, initial, events[..n], seen[..n]) + Due(config, events[n].OccursAtUtc(), handler(events, seen[n]).requests)
  }

  function AskedPast(config: RunConfig, handler: Handler, initial: Reaction, events: seq<Event>, seen: seq<nat>): nat
    requires |events| == |seen|
    decreases |events|
  {
    if events == [] then Past(config, config.startUtc, initial.requests)
    else
      var n := |events| - 1;
      AskedPast(config, handler, initial, events[..n], seen[..n]) + Past(config, events[n].OccursAtUtc(), handler(events, seen[n]).requests)
  }

  lemma {:induction false} EnqueuePlaces(pending: seq<Event>, e: Event) returns (k: nat)
    ensures k <= |pending| && Enqueue(pending, e) == WithInserted(pending, k, e)
    decreases |pending|
  {
    if pending == [] || Ahead(e, pending[0]) {
      k := 0;
      assert [e] + pending == WithInserted(pending, 0, e);
    } else {
      var j := EnqueuePlaces(pending[1..], e);
      InsertedFurther(pending, j, e);
      k := j + 1;
    }
  }

  lemma JoinLineHolds(config: RunConfig, line: Line, e: Event)
    requires line.now <= e.OccursAtUtc()
    ensures var joined := JoinLine(config, line, e);
      && multiset(joined.pending) == multiset(line.pending) + (if e.OccursAtUtc() <= config.endUtc then multiset{e} else multiset{})
      && joined.beyond == line.beyond + if config.endUtc < e.OccursAtUtc() then 1 else 0
  {
    var k := EnqueuePlaces(line.pending, e);
    MultisetWithInserted(line.pending, k, e);
  }

  lemma {:induction false} JoinAllHolds(config: RunConfig, line: Line, requests: seq<Request>, ending: Ending)
    ensures var (after, stop) := JoinAll(config, line, requests, ending);
      stop.None? ==>
        && multiset(after.pending) == multiset(line.pending) + multiset(Due(config, line.now, requests))
        && after.beyond == line.beyond + Past(config, line.now, requests)
    decreases requests
  {
    if requests != [] {
      var e, rest := requests[0].event, requests[1..];
      if line.now <= e.OccursAtUtc() {
        JoinLineHolds(config, line, e);
        JoinAllHolds(config, JoinLine(config, line, e), rest, ending);
        assert Due(config, line.now, requests) == (if e.OccursAtUtc() <= config.endUtc then [e] else []) + Due(config, line.now, rest);
      } else {
        JoinAllHolds(config, line, rest, ending);
        assert Due(config, line.now, requests) == [] + Due(config, line.now, rest);
      }
    }
  }

  /** All that was asked for has been served or waits. */
  ghost predicate Whole(config: RunConfig, handler: Handler, initial: Reaction, line: Line) {
    && |line.history| == |line.seen|
    && multiset(line.history) + multiset(line.pending) == multiset(AskedFor(config, handler, initial, line.history, line.seen))
    && line.beyond == AskedPast(config, handler, initial, line.history, line.seen)
  }

  lemma ServeKeepsWhole(config: RunConfig, handler: Handler, initial: Reaction, line: Line)
    requires line.pending != [] && Whole(config, handler, initial, line)
    ensures var (after, stop) := Serve(config, handler, line);
      stop.None? ==> Whole(config, handler, initial, after)
  {
    var served := Served(line);
    var reaction := handler(served.history, served.beyond);
    JoinAllKeepsHistory(config, served, reaction.requests, reaction.ending);
    JoinAllHolds(config, served, reaction.requests, reaction.ending);
    assert served.history[..|line.history|] == line.history && served.seen[..|line.seen|] == line.seen;
    assert line.pending == [line.pending[0]] + line.pending[1..];
  }

  lemma {:induction false} ServeAllKeepsWhole(config: RunConfig, handler: Handler, initial: Reaction, line: Line)
    requires Whole(config, handler, initial, line)
    ensures var (last, stop) := ServeAll(config, handler, line);
      && (stop in {Drained, BudgetExhausted} ==> Whole(config, handler, initial, last))
      && (stop == Drained ==> last.pending == [])
    decreases config.eventBudget - |line.history|
  {
    if line.pending != [] && |line.history| < config.eventBudget {
      var reaction := handler(Served(line).history, line.beyond);
      JoinAllKeepsHistory(config, Served(line), reaction.requests, reaction.ending);
      ServeKeepsWhole(config, handler, initial, line);
      JoinAllStopsOnlyAbnormally(config, Served(line), reaction.requests, reaction.ending);
      var (after, stop) := Serve(config, handler, line);
      if stop.None? { ServeAllKeepsWhole(config, handler, initial, after); }
    }
  }

  lemma {:induction false} JoinAllStopsOnlyAbnormally(config: RunConfig, line: Line, requests: seq<Request>, ending: Ending)
    ensures JoinAll(config, line, requests, ending).1 !in {Some(Drained), Some(BudgetExhausted)}
    decreases requests
  {
    if requests != [] {
      JoinAllStopsOnlyAbnormally(config, JoinLine(config, line, requests[0].event), requests[1..], ending);
      JoinAllStopsOnlyAbnormally(config, line, requests[1..], ending);
    }
  }

  /** A run that drains dispatches every event asked for and due in the window, as often as it was
      asked for, and nothing else; and the count of dropped events is the number asked for past the
      window's end. A run that its budget cuts short has dispatched some of them. */
  lemma DispatchesWhatWasAskedFor(config: RunConfig, handler: Handler, initial: Reaction)
    requires config.Valid()
    ensures var (last, stop) := RunLoop(config, handler, initial);
      var events := EventsOf(last.trace);
      stop in {Drained, BudgetExhausted} ==>
        && |last.dropped| == |events|
        && var asked := multiset(AskedFor(config, handler, initial, events, last.dropped));
          && multiset(events) <= asked && (stop == Drained ==> multiset(events) == asked)
          && last.beyond == AskedPast(config, handler, initial, events, last.dropped)
  {
    RunIsFirstComeFirstServed(config, handler, initial);
    var origin := Line(config.startUtc, [], 0, [], []);
    JoinAllHolds(config, origin, initial.requests, initial.ending);
    JoinAllKeepsHistory(config, origin, initial.requests, initial.ending);
    JoinAllStopsOnlyAbnormally(config, origin, initial.requests, initial.ending);
    var (line, stop) := JoinAll(config, origin, initial.requests, initial.ending);
    if stop.None? {
      assert multiset([]) + multiset(line.pending) == multiset(AskedFor(config, handler, initial, [], []));
      ServeAllKeepsWhole(config, handler, initial, line);
    }
  }
}
