/** The loop itself: a clock, the heap-backed queue, the context a handler is given, and the
    run that is refused, completed or reported as failed. */
module Engine {
  import opened Endings
  import opened EngineModel
  import opened EventQueues
  import opened Events
  import opened Options

  class SimulationClock {
    var nowUtc: Instant

    constructor (startUtc: Instant)
      ensures nowUtc == startUtc
    {
      nowUtc := startUtc;
    }

    /** `moved` is false exactly where the clock raises its `CausalityError`. */
    method AdvanceTo(instantUtc: Instant) returns (moved: bool)
      modifies this
      ensures moved <==> old(nowUtc) <= instantUtc
      ensures nowUtc == if moved then instantUtc else old(nowUtc)
    {
      moved := nowUtc <= instantUtc;
      if moved {
        nowUtc := instantUtc;
      }
    }
  }

  class RunContext {
    const config: RunConfig
    const clock: SimulationClock
    const queue: EventQueue
    var eventsBeyondWindow: nat

    constructor (config: RunConfig, clock: SimulationClock, queue: EventQueue)
      ensures this.config == config && this.clock == clock && this.queue == queue && eventsBeyondWindow == 0
    {
      this.config, this.clock, this.queue := config, clock, queue;
      eventsBeyondWindow := 0;
    }

    /** The objects hold what the abstract state says they hold. */
    ghost predicate Shows(st: Loop)
      reads this, clock, queue
    {
      && queue.Valid()
      && clock.nowUtc == st.now
      && queue.Contents() == st.queue
      && queue.sequence == st.counter
      && eventsBeyondWindow == st.beyond
    }

    /** Queue an event for its own instant, drop it past the window, refuse it before now. */
    method Schedule(event: Event, ghost st: Loop) returns (accepted: bool)
      requires Shows(st)
      modifies this, queue
      ensures accepted <==> event.OccursAtUtc() >= st.now
      ensures Shows(if accepted then Submit(config, st, event) else st)
    {
      if event.OccursAtUtc() < clock.nowUtc {
        return false;
      }
      if event.OccursAtUtc() > config.endUtc {
        eventsBeyondWindow := eventsBeyondWindow + 1;
        return true;
      }
      var queued := queue.Schedule(event);
      accepted := true;
    }

    /** The schedule calls one piece of foreign code makes, up to its return or first failure. */
    method Perform(reaction: Reaction, ghost st: Loop) returns (stop: Option<Stop>)
      requires Shows(st)
      modifies this, queue
      ensures var (after, why) := SubmitAll(config, st, reaction.requests, reaction.ending);
        Shows(after) && stop == why
    {
      ghost var current := st;
      var i := 0;
      while i < |reaction.requests|
        invariant i <= |reaction.requests| && Shows(current) && current.now == st.now
        invariant SubmitAll(config, current, reaction.requests[i..], reaction.ending) == SubmitAll(config, st, reaction.requests, reaction.ending)
      {
        var request := reaction.requests[i];
        assert reaction.requests[i..][1..] == reaction.requests[i + 1..];
        var accepted := Schedule(request.event, current);
        if accepted {
          current := Submit(config, current, request.event);
        } else if !request.tolerant {
          return Some(ScheduledInThePast);
        }
        i := i + 1;
      }
      stop := StopOf(reaction.ending);
    }
  }

  datatype ExecutionOutcome = Completed | Failed

  /** What the ledger hears about one execution; `failure` stands for the traceback. */
  datatype ExecutionReport = ExecutionReport(
    specHash: string, config: RunConfig, pathLabel: string,
    outcome: ExecutionOutcome, failure: Option<Stop>, dispatchedEventCount: nat)
  {
    /** What the constructor enforces: a failed execution says why, and a completed one does not. */
    predicate Valid() {
      failure.Some? <==> outcome == ExecutionOutcome.Failed
    }
  }

  class ExecutionReporter {
    var executions: seq<ExecutionReport>

    method ReportExecution(execution: ExecutionReport)
      modifies this
      ensures executions == old(executions) + [execution]
    {
      executions := executions + [execution];
    }
  }

  datatype SpecRegistration = SpecRegistration(specHash: string, trialsCharged: nat) {
    predicate IsRegistered() {
      trialsCharged > 0
    }
  }

  /** How `run` ends for its caller: the unregistered refusal, an exception, or a trace. */
  datatype RunResult =
    | Unregistered
    | Raised(why: Stop)
    | RunTrace(entries: seq<QueuedEvent>, eventsBeyondWindow: nat)

  class EventLoop {
    const config: RunConfig
    const handler: Handler
    const registration: SpecRegistration
    const reporter: ExecutionReporter
    const pathLabel: string

    constructor (config: RunConfig, handler: Handler, registration: SpecRegistration, reporter: ExecutionReporter, pathLabel: string)
      ensures this.config == config && this.handler == handler && this.registration == registration
      ensures this.reporter == reporter && this.pathLabel == pathLabel
    {
      this.config, this.handler, this.registration := config, handler, registration;
      this.reporter, this.pathLabel := reporter, pathLabel;
    }

    /** What the reporter is told about a run that stopped like this, if it is told anything. */
    function ReportOf(stop: Stop, dispatched: nat): seq<ExecutionReport> {
      match stop
      case Drained => [ExecutionReport(registration.specHash, config, pathLabel, Completed, None, dispatched)]
      case BaseEscaped => []
      case _ => [ExecutionReport(registration.specHash, config, pathLabel, ExecutionOutcome.Failed, Some(stop), dispatched)]
    }

    /** A run of any handler ends within its budget and makes at most one report, a legal one. It
        makes none exactly when the last call into foreign code let something outside `Exception`
        out, no schedule call of that code having been refused first. A report counts exactly the
        events dispatched, the whole budget on exhaustion, and never that the clock went back. */
    lemma ReportIsExact(initial: Reaction)
      requires config.Valid()
      ensures var (last, stop) := RunLoop(config, handler, initial);
        var reports := ReportOf(stop, |last.trace|);
        && |last.dropped| == |last.trace|
        && var call := LastCall(handler, initial, last);
          && |reports| == (if call.ending == RaisesBase && Unrefused(call.requests, last.now) then 0 else 1)
          && forall r :: r in reports ==>
               && r.Valid() && (r.outcome == Completed <==> last.queue == {} && stop == Drained)
               && r.specHash == registration.specHash && r.config == config && r.pathLabel == pathLabel
               && (stop != Drained ==> r.failure == Some(stop))
               && r.dispatchedEventCount + |last.queue| == last.counter
               && r.dispatchedEventCount <= config.eventBudget
               && (r.failure == Some(BudgetExhausted) ==> r.dispatchedEventCount == config.eventBudget && last.queue != {})
               && r.failure != Some(ClockReversed)
    {
      RunKeepsInv(config, handler, initial);
      LastCallDecides(config, handler, initial);
    }

    /** The promise on the code it holds for: a handler and an iterable that let out nothing but an
        `Exception` are reported exactly once by every run, crash or not. */
    lemma OrdinaryRunsAreReportedOnce(initial: Reaction)
      requires config.Valid() && Ordinary(handler, initial)
      ensures var (last, stop) := RunLoop(config, handler, initial);
        |ReportOf(stop, |last.trace|)| == 1
    {
      OrdinaryCodeNeverEscapes(config, handler, initial);
    }

    /** The run, and its report. An unregistered specification dispatches and reports nothing.
        A run that starts is reported exactly once, with the exact number of trace entries and
        the outcome dispatch had, unless something outside `Exception` escapes it: that alone
        goes unreported. */
    method Run(initial: Reaction) returns (result: RunResult)
      modifies reporter
      ensures registration.trialsCharged == 0 ==> result == Unregistered && reporter.executions == old(reporter.executions)
      ensures registration.trialsCharged > 0 ==>
                var (last, stop) := RunLoop(config, handler, initial);
                && reporter.executions == old(reporter.executions) + ReportOf(stop, |last.trace|)
                && result == if stop == Drained then RunTrace(last.trace, last.beyond) else Raised(stop)
    {
      if !registration.IsRegistered() {
        return Unregistered;
      }
      var entries, beyond, stop := Dispatch(initial);
      if stop == Drained {
        reporter.ReportExecution(ExecutionReport(registration.specHash, config, pathLabel, Completed, None, |entries|));
        result := RunTrace(entries, beyond);
      } else {
        if stop != BaseEscaped {
          reporter.ReportExecution(ExecutionReport(registration.specHash, config, pathLabel, ExecutionOutcome.Failed, Some(stop), |entries|));
        }
        result := Raised(stop);
      }
    }

    /** Drain the queue, appending to `entries` before each handler call. */
    method Dispatch(initial: Reaction) returns (entries: seq<QueuedEvent>, beyond: nat, stop: Stop)
      ensures var (last, why) := RunLoop(config, handler, initial);
        entries == last.trace && beyond == last.beyond && stop == why
    {
      entries := [];
      var queue := new EventQueue();
      var clock := new SimulationClock(config.startUtc);
      var context := new RunContext(config, clock, queue);
      ghost var st := Start(config);
      ghost var begun := SubmitAll(config, st, initial.requests, initial.ending);
      SubmitAllKeepsTrace(config, st, initial.requests, initial.ending);
      var failed := context.Perform(initial, st);
      if failed.Some? {
        return [], context.eventsBeyondWindow, failed.value;
      }
      st := begun.0;
      var events: seq<Event> := [];
      while |queue.heap| > 0
        invariant context.config == config && context.queue == queue && context.clock == clock
        invariant fresh(queue) && fresh(clock) && fresh(context)
        invariant context.Shows(st) && entries == st.trace && events == EventsOf(st.trace)
        invariant RunLoop(config, handler, initial) == Drain(config, handler, st)
        decreases config.eventBudget - |entries|
      {
        assert queue.heap[0] in queue.Contents();
        if |entries| >= config.eventBudget {
          return entries, context.eventsBeyondWindow, BudgetExhausted;
        }
        var next := queue.Pop();
        var queued := next.value;
        var moved := clock.AdvanceTo(queued.occursAtUtc);
        if !moved {
          return entries, context.eventsBeyondWindow, ClockReversed;
        }
        entries := entries + [queued];
        events := events + [queued.event];
        ghost var popped := Dispatched(st);
        assert EventsOf(popped.trace) == events;
        StepAppends(config, handler, st);
        var reaction := handler(events, context.eventsBeyondWindow);
        var interrupted := context.Perform(reaction, popped);
        if interrupted.Some? {
          return entries, context.eventsBeyondWindow, interrupted.value;
        }
        st := Step(config, handler, st).0;
      }
      assert queue.Contents() == {};
      return entries, context.eventsBeyondWindow, Drained;
    }
  }
}
