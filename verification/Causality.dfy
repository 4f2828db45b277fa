/** No look-ahead. The loop is first shown to be a plain waiting line, ordered by instant and
    band with ties served first come first served, so the insertion counter can be forgotten;
    then events later than an instant are shown to have no effect on anything up to it. */
module Causality {
  import opened EngineModel
  import opened Events
  import opened Options

  /** `seen[i]` is the dropped-event count readable while `history[i]` is handled. */
  datatype Line = Line(now: Instant, pending: seq<Event>, beyond: nat, history: seq<Event>, seen: seq<nat>)

  predicate Ahead(a: Event, b: Event) {
    || a.OccursAtUtc() < b.OccursAtUtc()
    || (a.OccursAtUtc() == b.OccursAtUtc() && a.Priority().Band() < b.Priority().Band())
  }

  /** Join the line behind everything that does not have to wait for `e`. */
  function Enqueue(pending: seq<Event>, e: Event): seq<Event> {
    if pending == [] then [e]
    else if Ahead(e, pending[0]) then [e] + pending
    else [pending[0]] + Enqueue(pending[1..], e)
  }

  function JoinLine(config: RunConfig, line: Line, e: Event): Line {
    if e.OccursAtUtc() > config.endUtc
    then line.(beyond := line.beyond + 1)
    else line.(pending := Enqueue(line.pending, e))
  }

  function JoinAll(config: RunConfig, line: Line, requests: seq<Request>, ending: Ending): (Line, Option<Stop>)
    decreases requests
  {
    if requests == [] then
      (line, StopOf(ending))
    else if requests[0].event.OccursAtUtc() >= line.now then
      JoinAll(config, JoinLine(config, line, requests[0].event), requests[1..], ending)
    else if requests[0].tolerant then
      JoinAll(config, line, requests[1..], ending)
    else
      (line, Some(ScheduledInThePast))
  }

  function Served(line: Line): Line
    requires line.pending != []
  {
    Line(line.pending[0].OccursAtUtc(), line.pending[1..], line.beyond, line.history + [line.pending[0]], line.seen + [line.beyond])
  }

  function Serve(config: RunConfig, handler: Handler, line: Line): (Line, Option<Stop>)
    requires line.pending != []
  {
    var served := Served(line);
    var reaction := handler(served.history, served.beyond);
    JoinAll(config, served, reaction.requests, reaction.ending)
  }

  function ServeAll(config: RunConfig, handler: Handler, line: Line): (Line, Stop)
    decreases config.eventBudget - |line.history|
  {
    if line.pending == [] then (line, Drained)
    else if |line.history| >= config.eventBudget then (line, BudgetExhausted)
    else
      JoinAllKeepsHistory(config, Served(line), handler(Served(line).history, line.beyond).requests, handler(Served(line).history, line.beyond).ending);
      var (after, stop) := Serve(config, handler, line);
      if stop.Some? then (after, stop.value) else ServeAll(config, handler, after)
  }

  function RunLine(config: RunConfig, handler: Handler, initial: Reaction): (Line, Stop) {
    var (line, stop) := JoinAll(config, Line(config.startUtc, [], 0, [], []), initial.requests, initial.ending);
    if stop.Some? then (line, stop.value) else ServeAll(config, handler, line)
  }

  lemma {:induction false} JoinAllKeepsHistory(config: RunConfig, line: Line, requests: seq<Request>, ending: Ending)
    ensures JoinAll(config, line, requests, ending).0.history == line.history
    ensures JoinAll(config, line, requests, ending).0.seen == line.seen
    ensures JoinAll(config, line, requests, ending).0.now == line.now
    decreases requests
  {
    if requests != [] {
      JoinAllKeepsHistory(config, JoinLine(config, line, requests[0].event), requests[1..], ending);
      JoinAllKeepsHistory(config, line, requests[1..], ending);
    }
  }

  // ----- the queue is a waiting line

  ghost function InOrder(queue: set<QueuedEvent>): seq<Event>
    decreases |queue|
  {
    if queue == {} then [] else [Least(queue).event] + InOrder(queue - {Least(queue)})
  }

  ghost predicate Behind(queue: set<QueuedEvent>, x: QueuedEvent) {
    && SequencesDistinct(queue) && x.WellFormed()
    && forall q :: q in queue ==> q.WellFormed() && q.sequence < x.sequence
  }

  lemma {:induction false} InOrderInsert(queue: set<QueuedEvent>, x: QueuedEvent)
    requires Behind(queue, x)
    ensures InOrder(queue + {x}) == Enqueue(InOrder(queue), x.event)
    decreases |queue|
  {
    var all := queue + {x};
    assert x in all && x !in queue;
    LeastIsUnique(Least(all), all);
    if queue == {} {
      assert Least(all) == x && all - {x} == {};
    } else {
      var m := Least(queue);
      LeastIsUnique(m, queue);
      if Less(x, m) {
        assert IsLeast(x, all);
        LeastIsUnique(x, all);
        assert all - {x} == queue;
      } else {
        assert IsLeast(m, all);
        LeastIsUnique(m, all);
        assert all - {m} == (queue - {m}) + {x};
        InOrderInsert(queue - {m}, x);
      }
    }
  }

  ghost function AsLine(st: Loop): Line {
    Line(st.now, InOrder(st.queue), st.beyond, EventsOf(st.trace), st.dropped)
  }

  lemma SubmitAsLine(config: RunConfig, st: Loop, e: Event)
    requires Conserved(st) && forall x :: x in st.queue ==> x.WellFormed()
    ensures AsLine(Submit(config, st, e)) == JoinLine(config, AsLine(st), e)
  {
    InOrderInsert(st.queue, Stamp(e, st.counter));
  }

  lemma {:induction false} SubmitAllAsLine(config: RunConfig, st: Loop, requests: seq<Request>, ending: Ending)
    requires Inv(config, st)
    ensures var (after, stop) := SubmitAll(config, st, requests, ending);
      JoinAll(config, AsLine(st), requests, ending) == (AsLine(after), stop)
    decreases requests
  {
    if requests != [] {
      if requests[0].event.OccursAtUtc() >= st.now {
        SubmitKeepsInv(config, st, requests[0].event);
        SubmitAsLine(config, st, requests[0].event);
        SubmitAllAsLine(config, Submit(config, st, requests[0].event), requests[1..], ending);
      } else {
        SubmitAllAsLine(config, st, requests[1..], ending);
      }
    }
  }

  lemma DispatchedAsLine(st: Loop)
    requires st.queue != {} && forall x :: x in st.queue ==> x.WellFormed()
    ensures InOrder(st.queue) != [] && AsLine(Dispatched(st)) == Served(AsLine(st))
  {
    assert InOrder(st.queue)[1..] == InOrder(st.queue - {Least(st.queue)});
    assert EventsOf(st.trace + [Least(st.queue)]) == EventsOf(st.trace) + [Least(st.queue).event];
  }

  lemma {:induction false} DrainAsLine(config: RunConfig, handler: Handler, st: Loop)
    requires Inv(config, st)
    ensures var (last, stop) := Drain(config, handler, st);
      ServeAll(config, handler, AsLine(st)) == (AsLine(last), stop)
    decreases config.eventBudget - |st.trace|
  {
    if st.queue != {} && |st.trace| < config.eventBudget {
      DispatchedStaysOrdered(config, st);
      DispatchedStaysConserved(st);
      DispatchedAsLine(st);
      StepKeepsInv(config, handler, st);
      StepAppends(config, handler, st);
      var popped := Dispatched(st);
      var reaction := ReactionTo(handler, popped);
      SubmitAllAsLine(config, popped, reaction.requests, reaction.ending);
      var (after, stop) := Step(config, handler, st);
      if stop.None? {
        DrainAsLine(config, handler, after);
      }
    }
  }

  /** The loop is a waiting line by instant and band, first come first served among ties: the
      events dispatched, the dropped count and the way the run ends are those of the line. */
  lemma RunIsFirstComeFirstServed(config: RunConfig, handler: Handler, initial: Reaction)
    requires config.Valid()
    ensures var (last, stop) := RunLoop(config, handler, initial);
      RunLine(config, handler, initial) == (AsLine(last), stop)
  {
    StartInv(config);
    SubmitAllAsLine(config, Start(config), initial.requests, initial.ending);
    SubmitAllKeepsInv(config, Start(config), initial.requests, initial.ending);
    var (st, stop) := SubmitAll(config, Start(config), initial.requests, initial.ending);
    if stop.None? {
      DrainAsLine(config, handler, st);
    }
  }

  lemma JoinOne(config: RunConfig, line: Line, e: Event)
    requires e.OccursAtUtc() >= line.now
    ensures JoinAll(config, line, [Request(e, false)], Returns) == (JoinLine(config, line, e), None)
  {
    assert [Request(e, false)][1..] == [];
  }

  // ----- events later than `t` do not reach anything up to `t`

  ghost predicate InLine(pending: seq<Event>) {
    forall i, j :: 0 <= i < j < |pending| ==> !Ahead(pending[j], pending[i])
  }

  /** The events of a sequence that occur by `t`. */
  function UpTo(events: seq<Event>, t: Instant): seq<Event> {
    if events == [] then []
    else (if events[0].OccursAtUtc() <= t then [events[0]] else []) + UpTo(events[1..], t)
  }

  /** The schedule calls of a sequence for instants up to `t`. */
  function KnownBy(requests: seq<Request>, t: Instant): seq<Request> {
    if requests == [] then []
    else (if requests[0].event.OccursAtUtc() <= t then [requests[0]] else []) + KnownBy(requests[1..], t)
  }

  function BeyondWindow(config: RunConfig, requests: seq<Request>): nat {
    if requests == [] then 0
    else (if requests[0].event.OccursAtUtc() > config.endUtc then 1 else 0) + BeyondWindow(config, requests[1..])
  }

  lemma {:induction false} UpToOfLate(events: seq<Event>, t: Instant)
    requires forall i :: 0 <= i < |events| ==> events[i].OccursAtUtc() > t
    ensures UpTo(events, t) == []
  {
    if events != [] {
      UpToOfLate(events[1..], t);
    }
  }

  lemma {:induction false} UpToAppend(events: seq<Event>, e: Event, t: Instant)
    ensures UpTo(events + [e], t) == UpTo(events, t) + if e.OccursAtUtc() <= t then [e] else []
  {
    if events == [] {
      assert [e][1..] == [];
    } else {
      UpToAppend(events[1..], e, t);
      assert (events + [e])[1..] == events[1..] + [e];
    }
  }

  lemma {:induction false} EnqueueStaysInLine(pending: seq<Event>, e: Event)
    requires InLine(pending)
    ensures InLine(Enqueue(pending, e))
    ensures forall x :: x in Enqueue(pending, e) ==> x in pending || x == e
  {
    if pending != [] && !Ahead(e, pending[0]) {
      EnqueueStaysInLine(pending[1..], e);
      var rest := Enqueue(pending[1..], e);
      assert forall j :: 0 <= j < |rest| ==> rest[j] in pending[1..] || rest[j] == e;
    }
  }

  lemma {:induction false} UpToOfEnqueue(pending: seq<Event>, e: Event, t: Instant)
    requires InLine(pending)
    ensures UpTo(Enqueue(pending, e), t) == if e.OccursAtUtc() <= t then Enqueue(UpTo(pending, t), e) else UpTo(pending, t)
  {
    if pending == [] {
      assert [e][1..] == [];
    } else {
      if pending[0].OccursAtUtc() > t { UpToOfLate(pending, t); }
      if Ahead(e, pending[0]) {
        assert ([e] + pending)[1..] == pending;
      } else {
        var rest := Enqueue(pending[1..], e);
        assert ([pending[0]] + rest)[1..] == rest;
        UpToOfEnqueue(pending[1..], e, t);
        if pending[0].OccursAtUtc() <= t {
          assert ([pending[0]] + UpTo(pending[1..], t))[1..] == UpTo(pending[1..], t);
        }
      }
    }
  }

  /** Two lines no one could tell apart by `t`. */
  ghost predicate Alike(a: Line, b: Line, t: Instant) {
    && InLine(a.pending) && InLine(b.pending)
    && a.now == b.now && a.beyond == b.beyond && a.history == b.history && a.seen == b.seen && |a.seen| == |a.history|
    && UpTo(a.pending, t) == UpTo(b.pending, t)
  }

  lemma JoinLineStaysAlike(config: RunConfig, a: Line, b: Line, e: Event, t: Instant)
    requires Alike(a, b, t)
    ensures Alike(JoinLine(config, a, e), JoinLine(config, b, e), t)
  {
    EnqueueStaysInLine(a.pending, e);
    EnqueueStaysInLine(b.pending, e);
    UpToOfEnqueue(a.pending, e, t);
    UpToOfEnqueue(b.pending, e, t);
  }

  lemma {:induction false} JoinAllStaysAlike(config: RunConfig, a: Line, b: Line, requests: seq<Request>, ending: Ending, t: Instant)
    requires Alike(a, b, t)
    ensures var (a', stopA) := JoinAll(config, a, requests, ending);
      var (b', stopB) := JoinAll(config, b, requests, ending);
      Alike(a', b', t) && stopA == stopB
    decreases requests
  {
    if requests != [] {
      var e := requests[0].event;
      if e.OccursAtUtc() >= a.now {
        JoinLineStaysAlike(config, a, b, e, t);
        JoinAllStaysAlike(config, JoinLine(config, a, e), JoinLine(config, b, e), requests[1..], ending, t);
      } else {
        JoinAllStaysAlike(config, a, b, requests[1..], ending, t);
      }
    }
  }

  ghost predicate Later(line: Line, t: Instant) {
    InLine(line.pending) && forall x :: x in line.pending ==> x.OccursAtUtc() > t
  }

  lemma {:induction false} JoinAllStaysLater(config: RunConfig, line: Line, requests: seq<Request>, ending: Ending, t: Instant)
    requires Later(line, t) && line.now > t
    ensures Later(JoinAll(config, line, requests, ending).0, t)
    decreases requests
  {
    if requests != [] {
      EnqueueStaysInLine(line.pending, requests[0].event);
      if requests[0].event.OccursAtUtc() >= line.now {
        JoinAllStaysLater(config, JoinLine(config, line, requests[0].event), requests[1..], ending, t);
      } else {
        JoinAllStaysLater(config, line, requests[1..], ending, t);
      }
    }
  }

  lemma {:induction false} UpToIsShorter(events: seq<Event>, t: Instant)
    ensures |UpTo(events, t)| <= |events|
  {
    if events != [] {
      UpToIsShorter(events[1..], t);
    }
  }

  /** Once everything waiting is later than `t`, nothing at or before `t` is ever served again. */
  lemma {:induction false} LaterServesNothingEarlier(config: RunConfig, handler: Handler, line: Line, t: Instant)
    requires Later(line, t) && |line.seen| == |line.history|
    ensures UpTo(ServeAll(config, handler, line).0.history, t) == UpTo(line.history, t)
    ensures line.seen <= ServeAll(config, handler, line).0.seen
    decreases config.eventBudget - |line.history|
  {
    if line.pending != [] && |line.history| < config.eventBudget {
      var served := Served(line);
      var reaction := handler(served.history, served.beyond);
      UpToAppend(line.history, line.pending[0], t);
      JoinAllKeepsHistory(config, served, reaction.requests, reaction.ending);
      JoinAllStaysLater(config, served, reaction.requests, reaction.ending, t);
      var (after, stop) := Serve(config, handler, line);
      if stop.None? {
        LaterServesNothingEarlier(config, handler, after, t);
      }
    }
  }

  lemma HeadDecides(pending: seq<Event>, t: Instant)
    requires InLine(pending)
    ensures UpTo(pending, t) == [] ==> forall x :: x in pending ==> x.OccursAtUtc() > t
    ensures UpTo(pending, t) != [] ==>
              && pending != [] && pending[0].OccursAtUtc() <= t
              && UpTo(pending, t)[0] == pending[0] && UpTo(pending[1..], t) == UpTo(pending, t)[1..]
  {
    if pending != [] {
      if pending[0].OccursAtUtc() > t { UpToOfLate(pending, t); }
    }
  }

  /** What the handler has been shown by `t`: the events, and the dropped count beside each. */
  ghost function Shown(line: Line, t: Instant): (seq<Event>, seq<nat>) {
    var events := UpTo(line.history, t);
    (events, if |events| <= |line.seen| then line.seen[..|events|] else line.seen)
  }

  lemma {:induction false} AlikeServesAlike(config: RunConfig, handler: Handler, a: Line, b: Line, t: Instant)
    requires Alike(a, b, t)
    ensures Shown(ServeAll(config, handler, a).0, t) == Shown(ServeAll(config, handler, b).0, t)
    decreases config.eventBudget - |a.history|
  {
    HeadDecides(a.pending, t);
    HeadDecides(b.pending, t);
    if UpTo(a.pending, t) == [] {
      LaterServesNothingEarlier(config, handler, a, t);
      LaterServesNothingEarlier(config, handler, b, t);
      UpToIsShorter(a.history, t);
      var k := |UpTo(a.history, t)|;
      assert ServeAll(config, handler, a).0.seen[..k] == a.seen[..k] == ServeAll(config, handler, b).0.seen[..k];
    } else if |a.history| < config.eventBudget {
      var servedA, servedB := Served(a), Served(b);
      var reaction := handler(servedA.history, servedA.beyond);
      JoinAllStaysAlike(config, servedA, servedB, reaction.requests, reaction.ending, t);
      JoinAllKeepsHistory(config, servedA, reaction.requests, reaction.ending);
      var (a', stop) := Serve(config, handler, a);
      var (b', _) := Serve(config, handler, b);
      if stop.None? {
        AlikeServesAlike(config, handler, a', b', t);
      }
    }
  }

  /** Of a batch of schedule calls, only those for instants up to `t` matter by `t`. */
  lemma {:induction false} OnlyKnownMatters(config: RunConfig, a: Line, b: Line, requests: seq<Request>, ending: Ending, t: Instant)
    requires InLine(a.pending) && InLine(b.pending) && UpTo(a.pending, t) == UpTo(b.pending, t)
    requires a.now == b.now <= t && a.now <= config.endUtc
    ensures var (a', stopA) := JoinAll(config, a, requests, ending);
      var (b', stopB) := JoinAll(config, b, KnownBy(requests, t), ending);
      && stopA == stopB
      && InLine(a'.pending) && InLine(b'.pending) && UpTo(a'.pending, t) == UpTo(b'.pending, t)
    ensures JoinAll(config, a, requests, ending).1.None? ==>
              JoinAll(config, a, requests, ending).0.beyond == a.beyond + BeyondWindow(config, requests)
    decreases requests
  {
    if requests != [] {
      var e := requests[0].event;
      var known := KnownBy(requests, t);
      if e.OccursAtUtc() <= t {
        assert known[0] == requests[0] && known[1..] == KnownBy(requests[1..], t);
      } else {
        assert known == KnownBy(requests[1..], t);
      }
      if e.OccursAtUtc() >= a.now {
        EnqueueStaysInLine(a.pending, e);
        EnqueueStaysInLine(b.pending, e);
        UpToOfEnqueue(a.pending, e, t);
        UpToOfEnqueue(b.pending, e, t);
        OnlyKnownMatters(config, JoinLine(config, a, e), if e.OccursAtUtc() <= t then JoinLine(config, b, e) else b, requests[1..], ending, t);
      } else {
        OnlyKnownMatters(config, a, b, requests[1..], ending, t);
      }
    }
  }

  /** No look-ahead: two sets of initial events that agree up to `t`, and drop equally many past
      the window's end, give the same events dispatched up to `t`, under any handler. */
  lemma FutureCannotReachThePast(config: RunConfig, handler: Handler, a: Reaction, b: Reaction, t: Instant)
    requires config.Valid() && config.startUtc <= t
    requires KnownBy(a.requests, t) == KnownBy(b.requests, t) && a.ending == b.ending
    requires BeyondWindow(config, a.requests) == BeyondWindow(config, b.requests)
    ensures Shown(AsLine(RunLoop(config, handler, a).0), t) == Shown(AsLine(RunLoop(config, handler, b).0), t)
  {
    RunIsFirstComeFirstServed(config, handler, a);
    RunIsFirstComeFirstServed(config, handler, b);
    var origin := Line(config.startUtc, [], 0, [], []);
    OnlyKnownMatters(config, origin, origin, a.requests, a.ending, t);
    OnlyKnownMatters(config, origin, origin, b.requests, b.ending, t);
    JoinAllKeepsHistory(config, origin, a.requests, a.ending);
    JoinAllKeepsHistory(config, origin, b.requests, b.ending);
    var (lineA, stop) := JoinAll(config, origin, a.requests, a.ending);
    var (lineB, _) := JoinAll(config, origin, b.requests, b.ending);
    if stop.None? {
      AlikeServesAlike(config, handler, lineA, lineB, t);
    }
  }

  /** The first thing a handler can read is how many initial events the window dropped. */
  lemma {:induction false} SeenOnlyGrows(config: RunConfig, handler: Handler, line: Line)
    ensures line.history <= ServeAll(config, handler, line).0.history
    ensures line.seen <= ServeAll(config, handler, line).0.seen
    ensures line.history < ServeAll(config, handler, line).0.history ==> line.seen + [line.beyond] <= ServeAll(config, handler, line).0.seen
    decreases config.eventBudget - |line.history|
  {
    if line.pending != [] && |line.history| < config.eventBudget {
      var reaction := handler(Served(line).history, line.beyond);
      JoinAllKeepsHistory(config, Served(line), reaction.requests, reaction.ending);
      var (after, stop) := Serve(config, handler, line);
      if stop.None? {
        SeenOnlyGrows(config, handler, after);
      }
    }
  }

  lemma FirstShown(config: RunConfig, handler: Handler, initial: Reaction, t: Instant)
    requires config.Valid() && UpTo(RunLine(config, handler, initial).0.history, t) != []
    ensures var counts := Shown(RunLine(config, handler, initial).0, t).1;
      counts != [] && counts[0] == BeyondWindow(config, initial.requests)
  {
    UpToIsShorter(RunLine(config, handler, initial).0.history, t);
    var origin := Line(config.startUtc, [], 0, [], []);
    JoinAllKeepsHistory(config, origin, initial.requests, initial.ending);
    OnlyKnownMatters(config, origin, origin, initial.requests, initial.ending, config.startUtc);
    SeenOnlyGrows(config, handler, JoinAll(config, origin, initial.requests, initial.ending).0);
  }

  /** No look-ahead, exactly. Take two sets of initial events that agree up to `t`, under any
      handler that is called by `t` at all. Everything it is shown up to `t` is the same in both
      runs if and only if the window drops equally many of their events: the dropped count is
      the one channel through which later data reach a handler. */
  lemma FutureReachesOnlyThroughDroppedCount(config: RunConfig, handler: Handler, a: Reaction, b: Reaction, t: Instant)
    requires config.Valid() && config.startUtc <= t
    requires KnownBy(a.requests, t) == KnownBy(b.requests, t) && a.ending == b.ending
    requires UpTo(EventsOf(RunLoop(config, handler, a).0.trace), t) != []
    ensures var lastA, lastB := RunLoop(config, handler, a).0, RunLoop(config, handler, b).0;
      Shown(AsLine(lastA), t) == Shown(AsLine(lastB), t) <==> BeyondWindow(config, a.requests) == BeyondWindow(config, b.requests)
  {
    RunIsFirstComeFirstServed(config, handler, a);
    RunIsFirstComeFirstServed(config, handler, b);
    FirstShown(config, handler, a, t);
    if BeyondWindow(config, a.requests) == BeyondWindow(config, b.requests) {
      FutureCannotReachThePast(config, handler, a, b, t);
    } else if Shown(RunLine(config, handler, a).0, t) == Shown(RunLine(config, handler, b).0, t) {
      FirstShown(config, handler, b, t);
    }
  }
}
