/** How a run ends is decided by the last call it made into foreign code, and by nothing else: when
    a run goes unreported is a condition on that call. */
module Endings {
  import opened EngineModel
  import opened EngineTheorems
  import opened Events
  import opened Options

  /** No schedule call of the batch was refused and left to escape. */
  predicate Unrefused(requests: seq<Request>, now: Instant) {
    forall r :: r in requests ==> r.tolerant || r.event.OccursAtUtc() >= now
  }

  /** What the last call of a run into foreign code did: the iterable of initial events until
      something is dispatched, and from then on the handler. */
  function LastCall(handler: Handler, initial: Reaction, last: Loop): Reaction
    requires |last.dropped| == |last.trace|
  {
    if last.trace == [] then initial else handler(EventsOf(last.trace), last.dropped[|last.trace| - 1])
  }

  /** How a call made at an instant cuts a run short, if it does. */
  function CutBy(call: Reaction, now: Instant): Option<Stop> {
    if Unrefused(call.requests, now) then StopOf(call.ending) else Some(ScheduledInThePast)
  }

  lemma {:induction false} BatchIsCutBy(config: RunConfig, st: Loop, requests: seq<Request>, ending: Ending)
    ensures SubmitAll(config, st, requests, ending).1 == CutBy(Reaction(requests, ending), st.now)
    decreases requests
  {
    if requests != [] {
      assert requests == [requests[0]] + requests[1..];
      assert Unrefused(requests, st.now) <==> (requests[0].tolerant || requests[0].event.OccursAtUtc() >= st.now) && Unrefused(requests[1..], st.now);
      BatchIsCutBy(config, Submit(config, st, requests[0].event), requests[1..], ending);
      BatchIsCutBy(config, st, requests[1..], ending);
    }
  }

  lemma LastCallOfStep(config: RunConfig, handler: Handler, initial: Reaction, st: Loop)
    requires st.queue != {} && |st.dropped| == |st.trace|
    ensures var (after, stop) := Step(config, handler, st);
      && |after.dropped| == |after.trace| == |st.trace| + 1
      && stop == CutBy(LastCall(handler, initial, after), after.now)
  {
    var popped := Dispatched(st);
    var reaction := ReactionTo(handler, popped);
    StepAppends(config, handler, st);
    SubmitAllKeepsTrace(config, popped, reaction.requests, reaction.ending);
    BatchIsCutBy(config, popped, reaction.requests, reaction.ending);
  }

  /** The run's stop, as its last call decides it. */
  ghost predicate Decides(call: Reaction, last: Loop, stop: Stop) {
    match CutBy(call, last.now)
    case Some(why) => stop == why
    case None => stop in {Drained, BudgetExhausted, ClockReversed}
  }

  lemma {:induction false} DrainIsDecided(config: RunConfig, handler: Handler, initial: Reaction, st: Loop)
    requires |st.dropped| == |st.trace| && CutBy(LastCall(handler, initial, st), st.now).None?
    ensures var (last, stop) := Drain(config, handler, st);
      |last.dropped| == |last.trace| && Decides(LastCall(handler, initial, last), last, stop)
    decreases config.eventBudget - |st.trace|
  {
    if st.queue != {} && |st.trace| < config.eventBudget && Least(st.queue).occursAtUtc >= st.now {
      LastCallOfStep(config, handler, initial, st);
      var (after, stop) := Step(config, handler, st);
      if stop.None? { DrainIsDecided(config, handler, initial, after); }
    }
  }

  /** The clock stands at the last event dispatched, or where the window begins. */
  ghost predicate Clocked(config: RunConfig, st: Loop) {
    st.now == if st.trace == [] then config.startUtc else st.trace[|st.trace| - 1].occursAtUtc
  }

  lemma {:induction false} DrainStaysClocked(config: RunConfig, handler: Handler, st: Loop)
    requires Clocked(config, st)
    ensures Clocked(config, Drain(config, handler, st).0)
    decreases config.eventBudget - |st.trace|
  {
    if st.queue != {} && |st.trace| < config.eventBudget && Least(st.queue).occursAtUtc >= st.now {
      StepAppends(config, handler, st);
      var (after, stop) := Step(config, handler, st);
      if stop.None? { DrainStaysClocked(config, handler, after); }
    }
  }

  /** A run is cut short exactly as its last call into foreign code says: by a schedule call in the
      past that the code let escape, else by the code's own failure, else not at all. */
  lemma LastCallDecides(config: RunConfig, handler: Handler, initial: Reaction)
    requires config.Valid()
    ensures var (last, stop) := RunLoop(config, handler, initial);
      && |last.dropped| == |last.trace|
      && Clocked(config, last)
      && var call := LastCall(handler, initial, last);
        && (stop == ScheduledInThePast <==> !Unrefused(call.requests, last.now))
        && (stop == HandlerRaised <==> Unrefused(call.requests, last.now) && call.ending == Raises)
        && (stop == BaseEscaped <==> Unrefused(call.requests, last.now) && call.ending == RaisesBase)
        && (stop in {Drained, BudgetExhausted} <==> Unrefused(call.requests, last.now) && call.ending == Returns)
  {
    var start := Start(config);
    RunKeepsInv(config, handler, initial);
    BatchIsCutBy(config, start, initial.requests, initial.ending);
    SubmitAllKeepsTrace(config, start, initial.requests, initial.ending);
    var (st, stop) := SubmitAll(config, start, initial.requests, initial.ending);
    if stop.None? {
      DrainIsDecided(config, handler, initial, st);
      DrainStaysClocked(config, handler, st);
    }
  }

  /** Foreign code that never lets anything but an `Exception` out. */
  ghost predicate Ordinary(handler: Handler, initial: Reaction) {
    initial.ending != RaisesBase && forall history, beyond :: handler(history, beyond).ending != RaisesBase
  }

  lemma OrdinaryCodeNeverEscapes(config: RunConfig, handler: Handler, initial: Reaction)
    requires config.Valid() && Ordinary(handler, initial)
    ensures RunLoop(config, handler, initial).1 != BaseEscaped
  {
    LastCallDecides(config, handler, initial);
    var last := RunLoop(config, handler, initial).0;
    if last.trace != [] {
      assert handler(EventsOf(last.trace), last.dropped[|last.trace| - 1]).ending != RaisesBase;
    }
  }

  /** A run that dispatches one event, whose handler is interrupted: it has started, it has
      dispatched, and it ends in a way that goes unreported. */
  lemma InterruptedRun()
    ensures exists config: RunConfig, handler: Handler, initial: Reaction ::
              config.Valid() && RunLoop(config, handler, initial).1 == BaseEscaped && |RunLoop(config, handler, initial).0.trace| == 1
  {
    var config := RunConfig(0, 9, 9);
    var timer := TimerEvent("s", 5, "w");
    var handler: Handler := (history: seq<Event>, beyond: nat) => Reaction([], RaisesBase);
    var initial := Reaction([Request(timer, false)], Returns);
    var first := Stamp(timer, 0);
    OneRequest(config, Start(config), timer);
    var st := SubmitAll(config, Start(config), initial.requests, initial.ending).0;
    assert st == Loop(0, {first}, 1, 0, 1, [], [], []);
    LeastOfOne(first);
    assert Step(config, handler, st) == (Dispatched(st), Some(BaseEscaped));
    assert RunLoop(config, handler, initial) == (Dispatched(st), BaseEscaped);
  }
}
