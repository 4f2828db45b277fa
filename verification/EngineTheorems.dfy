/** What holds of every run of the event loop, for every configuration, handler and iterable
    of initial events. */
module EngineTheorems {
  import opened EngineModel
  import opened Events
  import opened Options

  /** The order of a trace. If `i` was dispatched before `j` then either the key of `i` is
      smaller, or `j` was only scheduled once `i` had been popped; and in the second case a
      smaller key for `j` is possible only at the very instant of `i`. */
  lemma DispatchOrder(config: RunConfig, handler: Handler, initial: Reaction, i: nat, j: nat)
    requires config.Valid()
    requires i < j < |RunLoop(config, handler, initial).0.trace|
    ensures var last := RunLoop(config, handler, initial).0;
      var a, b := last.trace[i], last.trace[j];
      && |last.cuts| == |last.trace|
      && (Less(a, b) || b.sequence >= last.cuts[i])
      && (Less(b, a) ==> b.occursAtUtc == a.occursAtUtc && b.sequence >= last.cuts[i])
      && a.sequence < last.cuts[i]
      && config.startUtc <= a.occursAtUtc <= b.occursAtUtc <= config.endUtc
  {
    RunKeepsInv(config, handler, initial);
    var last := RunLoop(config, handler, initial).0;
    assert Follows(last.trace[i], last.cuts[i], last.trace[j]);
  }

  /** The kinds of event, earliest first: market data; funding; an order's acknowledgement, fill or
      rejection; a timer; reconciliation. `a` is not of a later kind than `b`. */
  predicate NoLaterKind(a: Event, b: Event) {
    match a
    case MarketDataEvent(_) => true
    case FundingEvent(_, _, _) => !b.MarketDataEvent?
    case OrderAckEvent(_, _) => !b.MarketDataEvent? && !b.FundingEvent?
    case FillEvent(_, _) => !b.MarketDataEvent? && !b.FundingEvent?
    case RejectEvent(_, _, _) => !b.MarketDataEvent? && !b.FundingEvent?
    case TimerEvent(_, _, _) => b.TimerEvent? || b.ReconciliationEvent?
    case ReconciliationEvent(_, _) => b.ReconciliationEvent?
  }

  /** Of two events of one instant that were both waiting, the one of the earlier kind is dispatched
      first, and of one kind the one that was scheduled first: funding is settled before the fill
      of its own instant, and a strategy wakes only after its fills. */
  lemma KindsKeepTheirOrder(config: RunConfig, handler: Handler, initial: Reaction, i: nat, j: nat)
    requires config.Valid() && i < j < |RunLoop(config, handler, initial).0.trace|
    ensures var last := RunLoop(config, handler, initial).0;
      var a, b := last.trace[i], last.trace[j];
      && |last.cuts| == |last.trace|
      && (a.occursAtUtc == b.occursAtUtc && b.sequence < last.cuts[i] ==>
            NoLaterKind(a.event, b.event) && (NoLaterKind(b.event, a.event) ==> a.sequence < b.sequence))
  {
    RunKeepsInv(config, handler, initial);
    DispatchOrder(config, handler, initial, i, j);
    var last := RunLoop(config, handler, initial).0;
    assert last.trace[i].WellFormed() && last.trace[j].WellFormed();
  }

  /** Every event is dispatched at the instant it tells of: a bar when it closes, a tick when it was
      printed, a fill when it happened, anything else when it was asked for. */
  lemma DispatchedAtItsInstant(config: RunConfig, handler: Handler, initial: Reaction, i: nat)
    requires config.Valid() && i < |RunLoop(config, handler, initial).0.trace|
    ensures var x := RunLoop(config, handler, initial).0.trace[i];
      match x.event
      case MarketDataEvent(ClosedBar(bar)) => x.occursAtUtc == bar.closeTimeUtc
      case MarketDataEvent(Tick(_, printedAtUtc, _)) => x.occursAtUtc == printedAtUtc
      case FundingEvent(_, settledAtUtc, _) => x.occursAtUtc == settledAtUtc
      case OrderAckEvent(_, ackedAtUtc) => x.occursAtUtc == ackedAtUtc
      case FillEvent(_, fillTimeUtc) => x.occursAtUtc == fillTimeUtc
      case RejectEvent(_, rejectedAtUtc, _) => x.occursAtUtc == rejectedAtUtc
      case TimerEvent(_, wakesAtUtc, _) => x.occursAtUtc == wakesAtUtc
      case ReconciliationEvent(_, sweptAtUtc) => x.occursAtUtc == sweptAtUtc
  {
    RunKeepsInv(config, handler, initial);
    assert RunLoop(config, handler, initial).0.trace[i].WellFormed();
  }

  ghost predicate Dispatches(trace: seq<QueuedEvent>, k: nat) {
    exists i :: 0 <= i < |trace| && trace[i].sequence == k
  }

  /** A run that drains dispatches each accepted event exactly once: sequences 0..n-1 in some order. */
  lemma DrainedTraceIsPermutation(config: RunConfig, handler: Handler, initial: Reaction)
    requires config.Valid() && RunLoop(config, handler, initial).1 == Drained
    ensures var last := RunLoop(config, handler, initial).0;
      && |last.trace| == last.counter
      && last.requested == |last.trace| + last.beyond
      && (forall i :: 0 <= i < |last.trace| ==> last.trace[i].sequence < |last.trace|)
      && (forall i, j :: 0 <= i < j < |last.trace| ==> last.trace[i].sequence != last.trace[j].sequence)
      && (forall k: nat :: k < |last.trace| ==> Dispatches(last.trace, k))
  {
    RunKeepsInv(config, handler, initial);
    var last := RunLoop(config, handler, initial).0;
    forall k: nat | k < |last.trace| ensures Dispatches(last.trace, k) {
      assert IssuedTo(last, k);
    }
  }

  // ----- when the trace is sorted by the whole key

  ghost predicate SortedByKey(trace: seq<QueuedEvent>) {
    forall i, j :: 0 <= i < j < |trace| ==> Less(trace[i], trace[j])
  }

  /** A handler asked, at the instant in hand, for an event of an earlier band than the one in hand. */
  ghost predicate Jumps(current: QueuedEvent, requests: seq<Request>) {
    exists r :: r in requests && r.event.OccursAtUtc() == current.occursAtUtc && r.event.Priority().Band() < current.priority.Band()
  }

  ghost predicate JumpsAt(handler: Handler, last: Loop, i: nat)
    requires i < |last.trace| == |last.dropped|
  {
    Jumps(last.trace[i], handler(EventsOf(last.trace[..i + 1]), last.dropped[i]).requests)
  }

  /** Everything dispatched so far has a smaller key than everything still queued. */
  ghost predicate AllBehind(st: Loop) {
    forall i, x :: 0 <= i < |st.trace| && x in st.queue ==> Less(st.trace[i], x)
  }

  /** Where the events queued after a batch of schedule calls came from. */
  lemma {:induction false} SubmitAllOrigins(config: RunConfig, st: Loop, requests: seq<Request>, ending: Ending, x: QueuedEvent)
    requires x in SubmitAll(config, st, requests, ending).0.queue
    ensures x in st.queue || (x.sequence >= st.counter && exists r :: r in requests && x == Stamp(r.event, x.sequence) && x.occursAtUtc >= st.now)
    decreases requests
  {
    if requests != [] {
      if requests[0].event.OccursAtUtc() >= st.now {
        SubmitAllOrigins(config, Submit(config, st, requests[0].event), requests[1..], ending, x);
      } else if requests[0].tolerant {
        SubmitAllOrigins(config, st, requests[1..], ending, x);
      }
      assert forall r :: r in requests[1..] ==> r in requests;
      assert requests[0] in requests;
    }
  }

  /** A batch that runs to its end queues every in-window event it asked for. */
  lemma {:induction false} SubmitAllAccepts(config: RunConfig, st: Loop, requests: seq<Request>, ending: Ending, r: Request)
    requires SubmitAll(config, st, requests, ending).1 == None
    requires r in requests && st.now <= r.event.OccursAtUtc() <= config.endUtc
    ensures exists x :: x in SubmitAll(config, st, requests, ending).0.queue && x == Stamp(r.event, x.sequence)
    decreases requests
  {
    if requests[0].event.OccursAtUtc() >= st.now {
      var next := Submit(config, st, requests[0].event);
      if requests[0] == r {
        SubmitAllKeepsTrace(config, next, requests[1..], ending);
        assert Stamp(r.event, st.counter) in next.queue;
      } else {
        SubmitAllAccepts(config, next, requests[1..], ending, r);
      }
    } else {
      SubmitAllAccepts(config, st, requests[1..], ending, r);
    }
  }

  /** Draining only ever appends to the trace, and leaves nothing of the queue undispatched. */
  lemma {:induction false} DrainExtends(config: RunConfig, handler: Handler, st: Loop)
    requires |st.dropped| == |st.trace|
    ensures var (last, stop) := Drain(config, handler, st);
      && |last.dropped| == |last.trace|
      && st.trace <= last.trace && st.dropped <= last.dropped
      && (stop == Drained ==> forall x :: x in st.queue ==> x in last.trace[|st.trace|..])
    decreases config.eventBudget - |st.trace|
  {
    if st.queue != {} && |st.trace| < config.eventBudget && Least(st.queue).occursAtUtc >= st.now {
      StepAppends(config, handler, st);
      var (after, stop) := Step(config, handler, st);
      if stop.None? {
        DrainExtends(config, handler, after);
        var last := Drain(config, handler, after).0;
        assert last.trace[|st.trace|] == Least(st.queue);
        assert last.trace[|st.trace|..] == [Least(st.queue)] + last.trace[|after.trace|..];
      }
    }
  }

  /** The events still queued after a dispatch that did not jump are all behind it. */
  lemma QuietStepStaysBehind(config: RunConfig, handler: Handler, st: Loop)
    requires Inv(config, st) && SortedByKey(st.trace) && AllBehind(st) && st.queue != {}
    requires !Jumps(Least(st.queue), ReactionTo(handler, Dispatched(st)).requests)
    ensures AllBehind(Step(config, handler, st).0) && SortedByKey(Step(config, handler, st).0.trace)
  {
    var next := Least(st.queue);
    DispatchedStaysOrdered(config, st);
    LeastIsUnique(next, st.queue);
    StepAppends(config, handler, st);
    var popped, after := Dispatched(st), Step(config, handler, st).0;
    var reaction := ReactionTo(handler, popped);
    forall i, x | 0 <= i < |after.trace| && x in after.queue ensures Less(after.trace[i], x) {
      SubmitAllOrigins(config, popped, reaction.requests, reaction.ending, x);
      assert after.trace[i] == next || Less(after.trace[i], next);
    }
  }

  lemma JumpBreaksOrder(config: RunConfig, handler: Handler, st: Loop)
    requires Inv(config, st) && |st.trace| < config.eventBudget && st.queue != {}
    requires Drain(config, handler, st).1 == Drained
    requires Jumps(Least(st.queue), ReactionTo(handler, Dispatched(st)).requests)
    ensures !SortedByKey(Drain(config, handler, st).0.trace)
  {
    var next, n := Least(st.queue), |st.trace|;
    DispatchedStaysOrdered(config, st);
    StepAppends(config, handler, st);
    var popped, after := Dispatched(st), Step(config, handler, st).0;
    var reaction := ReactionTo(handler, popped);
    var r :| r in reaction.requests && r.event.OccursAtUtc() == next.occursAtUtc && r.event.Priority().Band() < next.priority.Band();
    SubmitAllAccepts(config, popped, reaction.requests, reaction.ending, r);
    var x :| x in after.queue && x == Stamp(r.event, x.sequence);
    DrainExtends(config, handler, after);
    var last := Drain(config, handler, after).0;
    assert last.trace[n] == next;
    assert x in last.trace[n + 1..];
    var k :| n < k < |last.trace| && last.trace[k] == x;
    assert !Less(last.trace[n], last.trace[k]);
  }

  lemma JumpsNow(config: RunConfig, handler: Handler, st: Loop, last: Loop)
    requires st.queue != {} && |st.dropped| == |st.trace| && |last.dropped| == |last.trace|
    requires Dispatched(st).trace <= last.trace && Dispatched(st).dropped <= last.dropped
    ensures JumpsAt(handler, last, |st.trace|) <==> Jumps(Least(st.queue), ReactionTo(handler, Dispatched(st)).requests)
  {
    assert last.trace[..|st.trace| + 1] == Dispatched(st).trace;
    assert last.dropped[|st.trace|] == st.beyond;
  }

  /** One dispatch of a run, and what it leaves of the run. */
  lemma NextDispatch(config: RunConfig, handler: Handler, st: Loop)
    requires Inv(config, st) && st.queue != {} && |st.trace| < config.eventBudget
    ensures var (after, why) := Step(config, handler, st);
      var last := Drain(config, handler, st).0;
      && Inv(config, after) && |after.trace| == |st.trace| + 1
      && Drain(config, handler, st) == (if why.Some? then (after, why.value) else Drain(config, handler, after))
      && |last.trace| == |last.dropped| > |st.trace|
      && (JumpsAt(handler, last, |st.trace|) <==> Jumps(Least(st.queue), ReactionTo(handler, Dispatched(st)).requests))
  {
    StepAppends(config, handler, st);
    StepKeepsInv(config, handler, st);
    var after := Step(config, handler, st).0;
    DrainExtends(config, handler, after);
    JumpsNow(config, handler, st, Drain(config, handler, st).0);
  }

  lemma {:induction false} QuietFrom(config: RunConfig, handler: Handler, st: Loop)
    requires Inv(config, st) && |st.trace| <= config.eventBudget && SortedByKey(st.trace) && AllBehind(st)
    ensures var last := Drain(config, handler, st).0;
      && |last.dropped| == |last.trace|
      && ((forall i :: |st.trace| <= i < |last.trace| ==> !JumpsAt(handler, last, i)) ==> SortedByKey(last.trace))
    decreases config.eventBudget - |st.trace|
  {
    if st.queue != {} && |st.trace| < config.eventBudget {
      NextDispatch(config, handler, st);
      if !Jumps(Least(st.queue), ReactionTo(handler, Dispatched(st)).requests) {
        QuietStepStaysBehind(config, handler, st);
        if Step(config, handler, st).1.None? { QuietFrom(config, handler, Step(config, handler, st).0); }
      }
    }
  }

  lemma {:induction false} DrainedJumpShows(config: RunConfig, handler: Handler, st: Loop, i: nat)
    requires Inv(config, st) && |st.trace| <= config.eventBudget && Drain(config, handler, st).1 == Drained
    requires var last := Drain(config, handler, st).0; |st.trace| <= i < |last.trace| == |last.dropped| && JumpsAt(handler, last, i)
    ensures !SortedByKey(Drain(config, handler, st).0.trace)
    decreases config.eventBudget - |st.trace|
  {
    NextDispatch(config, handler, st);
    if i == |st.trace| {
      JumpBreaksOrder(config, handler, st);
    } else {
      DrainedJumpShows(config, handler, Step(config, handler, st).0, i);
    }
  }

  /** The trace of a run, however the run ends, is sorted by the whole key if no handler call asked,
      at the instant in hand, for an event of an earlier band than the one it was handling. When
      the run drains, so that everything asked for is dispatched, that is the only way. */
  lemma SortedIffNoJump(config: RunConfig, handler: Handler, initial: Reaction)
    requires config.Valid()
    ensures var (last, stop) := RunLoop(config, handler, initial);
      && |last.dropped| == |last.trace|
      && ((forall i :: 0 <= i < |last.trace| ==> !JumpsAt(handler, last, i)) ==> SortedByKey(last.trace))
      && (stop == Drained && SortedByKey(last.trace) ==> forall i :: 0 <= i < |last.trace| ==> !JumpsAt(handler, last, i))
  {
    StartInv(config);
    SubmitAllKeepsInv(config, Start(config), initial.requests, initial.ending);
    SubmitAllKeepsTrace(config, Start(config), initial.requests, initial.ending);
    SubmitAllStops(config, Start(config), initial.requests, initial.ending);
    var (st, stop) := SubmitAll(config, Start(config), initial.requests, initial.ending);
    if stop.None? {
      QuietFrom(config, handler, st);
      var last := Drain(config, handler, st).0;
      if Drain(config, handler, st).1 == Drained {
        forall i | 0 <= i < |last.trace| && JumpsAt(handler, last, i) ensures !SortedByKey(last.trace) {
          DrainedJumpShows(config, handler, st, i);
        }
      }
    }
  }

  lemma LeastOfOne(x: QueuedEvent)
    ensures Least({x}) == x && {x} - {x} == {}
  {
    assert Least({x}) in {x};
  }

  lemma OneRequest(config: RunConfig, st: Loop, e: Event)
    requires e.OccursAtUtc() >= st.now
    ensures SubmitAll(config, st, [Request(e, false)], Returns) == (Submit(config, st, e), None)
  {
    assert [Request(e, false)][1..] == [];
  }

  /** A run of one event that leads to one other: its states. */
  lemma OneLeadsToAnother(config: RunConfig, handler: Handler, a: Event, b: Event)
    requires config.Valid() && config.startUtc <= a.OccursAtUtc() <= b.OccursAtUtc() <= config.endUtc && config.eventBudget >= 2
    requires handler([a], 0) == Reaction([Request(b, false)], Returns) && handler([a, b], 0) == Reaction([], Returns)
    ensures var (last, stop) := RunLoop(config, handler, Reaction([Request(a, false)], Returns));
      stop == Drained && last.trace == [Stamp(a, 0), Stamp(b, 1)]
  {
    var first, second := Stamp(a, 0), Stamp(b, 1);
    OneRequest(config, Start(config), a);
    LeastOfOne(first);
    LeastOfOne(second);
    assert EventsOf([first]) == [a] && EventsOf([first, second]) == [a, b];
    var st := Submit(config, Start(config), a);
    assert st.queue == {first};
    var popped := Dispatched(st);
    assert popped.trace == [first] && popped.queue == {};
    OneRequest(config, popped, b);
    var after := Submit(config, popped, b);
    assert after.queue == {second};
    var done := Dispatched(after);
    assert done.trace == [first, second] && done.queue == {};
    assert Step(config, handler, st) == (after, None) && Step(config, handler, after) == (done, None);
    assert Drain(config, handler, done) == (done, Drained);
    assert Drain(config, handler, after) == (done, Drained);
  }

  /** A timer that asks for a tick at its own instant: the tick is dispatched second and has
      the smaller key, so a trace is not sorted by the whole key in general. */
  lemma TraceNeedNotBeSorted()
    ensures exists config: RunConfig, handler: Handler, initial: Reaction ::
              config.Valid() && RunLoop(config, handler, initial).1 == Drained && !SortedByKey(RunLoop(config, handler, initial).0.trace)
  {
    var config := RunConfig(0, 9, 9);
    var timer, tick := TimerEvent("s", 5, "w"), MarketDataEvent(Tick("x", 5, 1.0));
    var handler: Handler := (history: seq<Event>, beyond: nat) =>
      Reaction(if history == [timer] then [Request(tick, false)] else [], Returns);
    OneLeadsToAnother(config, handler, timer, tick);
    var trace := [Stamp(timer, 0), Stamp(tick, 1)];
    assert Less(trace[1], trace[0]);
  }

  // ----- the budget

  /** The same configuration with another budget. */
  function WithBudget(config: RunConfig, budget: nat): RunConfig {
    config.(eventBudget := budget)
  }

  lemma {:induction false} SubmitAllIgnoresBudget(config: RunConfig, budget: nat, st: Loop, requests: seq<Request>, ending: Ending)
    ensures SubmitAll(WithBudget(config, budget), st, requests, ending) == SubmitAll(config, st, requests, ending)
    decreases requests
  {
    if requests != [] {
      SubmitAllIgnoresBudget(config, budget, Submit(config, st, requests[0].event), requests[1..], ending);
      SubmitAllIgnoresBudget(config, budget, st, requests[1..], ending);
    }
  }

  lemma {:induction false} LargerBudgetExtendsDrain(config: RunConfig, budget: nat, handler: Handler, st: Loop)
    requires Inv(config, st) && |st.trace| <= config.eventBudget < budget
    ensures var (short, why) := Drain(config, handler, st);
      var (long, _) := Drain(WithBudget(config, budget), handler, st);
      && (why != BudgetExhausted ==> Drain(WithBudget(config, budget), handler, st) == (short, why))
      && (why == BudgetExhausted ==> short.trace < long.trace)
    decreases config.eventBudget - |st.trace|
  {
    if st.queue != {} {
      var reaction := ReactionTo(handler, Dispatched(st));
      SubmitAllIgnoresBudget(config, budget, Dispatched(st), reaction.requests, reaction.ending);
      DispatchedStaysOrdered(config, st);
      StepAppends(config, handler, st);
      StepKeepsInv(config, handler, st);
      var (after, stop) := Step(config, handler, st);
      if stop.None? {
        if |st.trace| < config.eventBudget {
          LargerBudgetExtendsDrain(config, budget, handler, after);
        } else {
          DrainExtends(WithBudget(config, budget), handler, after);
        }
      }
    }
  }

  /** Raising the budget never changes a run that fitted in it, and a run stopped by its budget
      is a proper prefix of the run it was cut from: the budget is a pure backstop. */
  lemma LargerBudgetExtends(config: RunConfig, budget: nat, handler: Handler, initial: Reaction)
    requires config.Valid() && config.eventBudget < budget
    ensures var (short, why) := RunLoop(config, handler, initial);
      var (long, _) := RunLoop(WithBudget(config, budget), handler, initial);
      && (why != BudgetExhausted ==> RunLoop(WithBudget(config, budget), handler, initial) == (short, why))
      && (why == BudgetExhausted ==> |short.trace| == config.eventBudget && short.trace < long.trace)
  {
    StartInv(config);
    RunKeepsInv(config, handler, initial);
    SubmitAllIgnoresBudget(config, budget, Start(config), initial.requests, initial.ending);
    SubmitAllKeepsInv(config, Start(config), initial.requests, initial.ending);
    SubmitAllKeepsTrace(config, Start(config), initial.requests, initial.ending);
    var (st, stop) := SubmitAll(config, Start(config), initial.requests, initial.ending);
    if stop.None? {
      LargerBudgetExtendsDrain(config, budget, handler, st);
    }
  }
}
