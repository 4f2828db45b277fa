/** The event loop as a function of its configuration, initial events and handler: a set of
    queued events, a clock, and the trace. `Engine` proves that the loop over the array heap
    computes exactly this; the theorems about every run are stated here. */
module EngineModel {
  import opened Events
  import opened Options

  /** How a call into foreign code ends. `RaisesBase` stands for a `BaseException` that is
      not an `Exception`, which the loop deliberately does not intercept. */
  datatype Ending = Returns | Raises | RaisesBase

  /** One call of `RunContext.schedule`; `tolerant` when the caller swallows its refusal. */
  datatype Request = Request(event: Event, tolerant: bool)

  datatype Reaction = Reaction(requests: seq<Request>, ending: Ending)

  /** Any handler. It is given every event dispatched so far, the current one last, and the
      count of dropped events it can read off its context. Since the history grows with each
      call, such a function describes a run of any handler, stateful or random ones included. */
  type Handler = (seq<Event>, nat) -> Reaction

  datatype RunConfig = RunConfig(startUtc: Instant, endUtc: Instant, eventBudget: nat) {
    predicate Valid() {
      startUtc < endUtc && eventBudget > 0
    }
  }

  datatype Stop = Drained | ScheduledInThePast | ClockReversed | BudgetExhausted | HandlerRaised | BaseEscaped

  /** The loop between two statements. `cuts[i]` is the insertion counter when `trace[i]` was
      popped, so an event was scheduled after that pop iff its sequence is at least `cuts[i]`;
      `dropped[i]` is the dropped-event count its handler call could read, and `requested` counts the schedule calls that were not refused. */
  datatype Loop = Loop(
    now: Instant, queue: set<QueuedEvent>, counter: nat, beyond: nat, requested: nat,
    trace: seq<QueuedEvent>, cuts: seq<nat>, dropped: seq<nat>)

  function Start(config: RunConfig): Loop {
    Loop(config.startUtc, {}, 0, 0, 0, [], [], [])
  }

  function EventsOf(trace: seq<QueuedEvent>): (events: seq<Event>)
    ensures |events| == |trace|
  {
    seq(|trace|, i requires 0 <= i < |trace| => trace[i].event)
  }

  function Stamp(event: Event, sequence: nat): QueuedEvent {
    QueuedEvent(event.OccursAtUtc(), event.Priority(), sequence, event)
  }

  function Submit(config: RunConfig, st: Loop, event: Event): Loop {
    if event.OccursAtUtc() > config.endUtc then
      st.(beyond := st.beyond + 1, requested := st.requested + 1)
    else
      st.(queue := st.queue + {Stamp(event, st.counter)}, counter := st.counter + 1, requested := st.requested + 1)
  }

  function StopOf(ending: Ending): Option<Stop> {
    match ending
    case Returns => None
    case Raises => Some(HandlerRaised)
    case RaisesBase => Some(BaseEscaped)
  }

  function SubmitAll(config: RunConfig, st: Loop, requests: seq<Request>, ending: Ending): (Loop, Option<Stop>)
    decreases requests
  {
    if requests == [] then
      (st, StopOf(ending))
    else if requests[0].event.OccursAtUtc() >= st.now then
      SubmitAll(config, Submit(config, st, requests[0].event), requests[1..], ending)
    else if requests[0].tolerant then
      SubmitAll(config, st, requests[1..], ending)
    else
      (st, Some(ScheduledInThePast))
  }

  ghost function Dispatched(st: Loop): Loop
    requires st.queue != {}
  {
    var next := Least(st.queue);
    st.(now := next.occursAtUtc, queue := st.queue - {next},
        trace := st.trace + [next], cuts := st.cuts + [st.counter], dropped := st.dropped + [st.beyond])
  }

  function ReactionTo(handler: Handler, st: Loop): Reaction {
    handler(EventsOf(st.trace), st.beyond)
  }

  ghost function Step(config: RunConfig, handler: Handler, st: Loop): (Loop, Option<Stop>)
    requires st.queue != {}
  {
    var popped := Dispatched(st);
    var reaction := ReactionTo(handler, popped);
    SubmitAll(config, popped, reaction.requests, reaction.ending)
  }

  ghost function Drain(config: RunConfig, handler: Handler, st: Loop): (Loop, Stop)
    decreases config.eventBudget - |st.trace|
  {
    if st.queue == {} then
      (st, Drained)
    else if |st.trace| >= config.eventBudget then
      (st, BudgetExhausted)
    else if Least(st.queue).occursAtUtc < st.now then
      (st.(queue := st.queue - {Least(st.queue)}), ClockReversed)
    else
      StepAppends(config, handler, st);
      var (after, stop) := Step(config, handler, st);
      if stop.Some? then (after, stop.value) else Drain(config, handler, after)
  }

  /** A whole run; the initial events come from an iterable that may itself fail. */
  ghost function RunLoop(config: RunConfig, handler: Handler, initial: Reaction): (Loop, Stop) {
    var (st, stop) := SubmitAll(config, Start(config), initial.requests, initial.ending);
    if stop.Some? then (st, stop.value) else Drain(config, handler, st)
  }

  lemma {:induction false} SubmitAllKeepsTrace(config: RunConfig, st: Loop, requests: seq<Request>, ending: Ending)
    ensures var after := SubmitAll(config, st, requests, ending).0;
      && after.trace == st.trace && after.cuts == st.cuts && after.dropped == st.dropped && after.now == st.now
      && st.queue <= after.queue && st.counter <= after.counter
    decreases requests
  {
    if requests != [] {
      SubmitAllKeepsTrace(config, Submit(config, st, requests[0].event), requests[1..], ending);
      SubmitAllKeepsTrace(config, st, requests[1..], ending);
    }
  }

  /** The ways foreign code can cut a run short. */
  predicate Interrupts(stop: Option<Stop>) {
    stop.None? || stop.value in {ScheduledInThePast, HandlerRaised, BaseEscaped}
  }

  lemma {:induction false} SubmitAllStops(config: RunConfig, st: Loop, requests: seq<Request>, ending: Ending)
    ensures Interrupts(SubmitAll(config, st, requests, ending).1)
    decreases requests
  {
    if requests != [] {
      SubmitAllStops(config, Submit(config, st, requests[0].event), requests[1..], ending);
      SubmitAllStops(config, st, requests[1..], ending);
    }
  }

  lemma StepAppends(config: RunConfig, handler: Handler, st: Loop)
    requires st.queue != {}
    ensures var after := Step(config, handler, st).0;
      && after.trace == st.trace + [Least(st.queue)] && after.cuts == st.cuts + [st.counter]
      && after.dropped == st.dropped + [st.beyond] && after.now == Least(st.queue).occursAtUtc && st.queue - {Least(st.queue)} <= after.queue
    ensures Interrupts(Step(config, handler, st).1)
  {
    var popped := Dispatched(st);
    var reaction := ReactionTo(handler, popped);
    SubmitAllKeepsTrace(config, popped, reaction.requests, reaction.ending);
    SubmitAllStops(config, popped, reaction.requests, reaction.ending);
  }

  // ----- what every state of every run satisfies

  /** `x` may still be dispatched after `a`: it was queued behind `a`, or scheduled since. */
  ghost predicate Follows(a: QueuedEvent, cut: nat, x: QueuedEvent) {
    if x.sequence < cut then Less(a, x) else a.occursAtUtc <= x.occursAtUtc
  }

  ghost predicate OrderKept(st: Loop) {
    && |st.cuts| == |st.trace|
    && (forall i, x :: 0 <= i < |st.trace| && x in st.queue ==> Follows(st.trace[i], st.cuts[i], x))
    && (forall i, j :: 0 <= i < j < |st.trace| ==> Follows(st.trace[i], st.cuts[i], st.trace[j]))
  }

  ghost predicate WithinWindow(config: RunConfig, st: Loop) {
    && config.startUtc <= st.now <= config.endUtc
    && (forall x :: x in st.queue ==> st.now <= x.occursAtUtc <= config.endUtc && x.WellFormed())
    && (forall i :: 0 <= i < |st.trace| ==> config.startUtc <= st.trace[i].occursAtUtc <= st.now && st.trace[i].WellFormed())
  }

  ghost predicate IssuedTo(st: Loop, k: nat) {
    (exists i :: 0 <= i < |st.trace| && st.trace[i].sequence == k) || (exists x :: x in st.queue && x.sequence == k)
  }

  ghost predicate Numbered(st: Loop) {
    && |st.cuts| == |st.trace| == |st.dropped|
    && SequencesDistinct(st.queue)
    && (forall x :: x in st.queue ==> x.sequence < st.counter)
    && (forall i :: 0 <= i < |st.trace| ==> st.trace[i].sequence < st.cuts[i] <= st.counter)
    && (forall i, j :: 0 <= i < j < |st.trace| ==> st.trace[i].sequence != st.trace[j].sequence)
    && (forall i, x :: 0 <= i < |st.trace| && x in st.queue ==> st.trace[i].sequence != x.sequence)
  }

  ghost predicate Covered(st: Loop) {
    forall k: nat :: k < st.counter ==> IssuedTo(st, k)
  }

  /** Dispatched and queued sequence numbers partition `[0, counter)`, and no request is lost. */
  ghost predicate Conserved(st: Loop) {
    && Numbered(st) && Covered(st)
    && |st.trace| + |st.queue| == st.counter
    && st.requested == st.counter + st.beyond
  }

  ghost predicate Inv(config: RunConfig, st: Loop) {
    OrderKept(st) && WithinWindow(config, st) && Conserved(st)
  }

  lemma SubmitKeepsCovered(config: RunConfig, st: Loop, event: Event)
    requires Covered(st)
    ensures Covered(Submit(config, st, event))
  {
    var after := Submit(config, st, event);
    forall k: nat | k < after.counter ensures IssuedTo(after, k) {
      if k < st.counter {
        assert IssuedTo(st, k);
      } else {
        assert Stamp(event, st.counter) in after.queue;
      }
    }
  }

  lemma SubmitKeepsConserved(config: RunConfig, st: Loop, event: Event)
    requires Conserved(st)
    ensures Conserved(Submit(config, st, event))
  {
    SubmitKeepsCovered(config, st, event);
    assert Stamp(event, st.counter) !in st.queue;
  }

  lemma SubmitKeepsOrder(config: RunConfig, st: Loop, event: Event)
    requires Inv(config, st) && event.OccursAtUtc() >= st.now
    ensures OrderKept(Submit(config, st, event))
  {
    forall i | 0 <= i < |st.trace| ensures Follows(st.trace[i], st.cuts[i], Stamp(event, st.counter)) {
      assert st.cuts[i] <= st.counter && st.trace[i].occursAtUtc <= st.now;
    }
  }

  lemma SubmitKeepsWindow(config: RunConfig, st: Loop, event: Event)
    requires WithinWindow(config, st) && event.OccursAtUtc() >= st.now
    ensures WithinWindow(config, Submit(config, st, event))
  {
  }

  lemma SubmitKeepsInv(config: RunConfig, st: Loop, event: Event)
    requires Inv(config, st) && event.OccursAtUtc() >= st.now
    ensures Inv(config, Submit(config, st, event))
  {
    SubmitKeepsConserved(config, st, event);
    SubmitKeepsOrder(config, st, event);
    SubmitKeepsWindow(config, st, event);
  }

  lemma {:induction false} SubmitAllKeepsInv(config: RunConfig, st: Loop, requests: seq<Request>, ending: Ending)
    requires Inv(config, st)
    ensures Inv(config, SubmitAll(config, st, requests, ending).0)
    decreases requests
  {
    if requests != [] {
      if requests[0].event.OccursAtUtc() >= st.now {
        SubmitKeepsInv(config, st, requests[0].event);
        SubmitAllKeepsInv(config, Submit(config, st, requests[0].event), requests[1..], ending);
      } else {
        SubmitAllKeepsInv(config, st, requests[1..], ending);
      }
    }
  }

  lemma DispatchedStaysCovered(st: Loop)
    requires Covered(st) && st.queue != {}
    ensures Covered(Dispatched(st))
  {
    var after := Dispatched(st);
    forall k: nat | k < after.counter ensures IssuedTo(after, k) {
      assert IssuedTo(st, k);
      if i :| 0 <= i < |st.trace| && st.trace[i].sequence == k {
        assert after.trace[i].sequence == k;
      } else {
        var x :| x in st.queue && x.sequence == k;
        assert x in after.queue || after.trace[|st.trace|] == x;
      }
    }
  }

  lemma DispatchedStaysConserved(st: Loop)
    requires Conserved(st) && st.queue != {}
    ensures Conserved(Dispatched(st))
  {
    DispatchedStaysCovered(st);
    var next := Least(st.queue);
    var after := Dispatched(st);
    assert Numbered(after) by {
      assert next in st.queue;
      assert forall x :: x in after.queue ==> x in st.queue && x.sequence != next.sequence;
    }
  }

  lemma DispatchedStaysOrdered(config: RunConfig, st: Loop)
    requires Inv(config, st) && st.queue != {}
    ensures OrderKept(Dispatched(st)) && WithinWindow(config, Dispatched(st))
    ensures st.now <= Least(st.queue).occursAtUtc
  {
    var next := Least(st.queue);
    LeastIsUnique(next, st.queue);
    var after := Dispatched(st);
    forall i, x | 0 <= i < |after.trace| && x in after.queue ensures Follows(after.trace[i], after.cuts[i], x) {
      if i < |st.trace| { assert Follows(st.trace[i], st.cuts[i], x); }
    }
  }

  lemma StepKeepsInv(config: RunConfig, handler: Handler, st: Loop)
    requires Inv(config, st) && st.queue != {}
    ensures Inv(config, Step(config, handler, st).0)
  {
    DispatchedStaysConserved(st);
    DispatchedStaysOrdered(config, st);
    var popped := Dispatched(st);
    var reaction := ReactionTo(handler, popped);
    SubmitAllKeepsInv(config, popped, reaction.requests, reaction.ending);
  }

  /** How a finished run may look: it never ends by the clock refusing to go backwards. */
  ghost predicate Ended(config: RunConfig, last: Loop, stop: Stop) {
    && stop != ClockReversed
    && |last.trace| <= config.eventBudget
    && (stop == Drained ==> last.queue == {})
    && (stop == BudgetExhausted ==> |last.trace| == config.eventBudget && last.queue != {})
  }

  lemma {:induction false} DrainKeepsInv(config: RunConfig, handler: Handler, st: Loop)
    requires Inv(config, st) && |st.trace| <= config.eventBudget
    ensures var (last, stop) := Drain(config, handler, st); Inv(config, last) && Ended(config, last, stop)
    decreases config.eventBudget - |st.trace|
  {
    if st.queue != {} && |st.trace| < config.eventBudget {
      DispatchedStaysOrdered(config, st);
      StepKeepsInv(config, handler, st);
      StepAppends(config, handler, st);
      var (after, stop) := Step(config, handler, st);
      if stop.None? {
        DrainKeepsInv(config, handler, after);
      }
    }
  }

  lemma StartInv(config: RunConfig)
    requires config.Valid()
    ensures Inv(config, Start(config))
  {
  }

  /** Every run of every handler ends in a conserved, ordered, in-window state, within its
      budget, and never through the clock's own refusal to go backwards. */
  lemma RunKeepsInv(config: RunConfig, handler: Handler, initial: Reaction)
    requires config.Valid()
    ensures var (last, stop) := RunLoop(config, handler, initial); Inv(config, last) && Ended(config, last, stop)
  {
    StartInv(config);
    SubmitAllKeepsInv(config, Start(config), initial.requests, initial.ending);
    SubmitAllKeepsTrace(config, Start(config), initial.requests, initial.ending);
    SubmitAllStops(config, Start(config), initial.requests, initial.ending);
    var (st, stop) := SubmitAll(config, Start(config), initial.requests, initial.ending);
    if stop.None? {
      DrainKeepsInv(config, handler, st);
    }
  }
}
