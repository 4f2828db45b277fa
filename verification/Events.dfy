/** The events the loop carries, the band that orders each kind, and the total order on
    queued events: instant first, then band, then the queue's own insertion counter. */
module Events {

  // Simulated time in whole microseconds; UTC throughout.
  type Instant = int

  datatype Priority = MarketData | Funding | Venue | Timer | Reconciliation {
    function Band(): nat {
      match this
      case MarketData => 0
      case Funding => 1
      case Venue => 2
      case Timer => 3
      case Reconciliation => 4
    }
  }

  /** A closed interval; only what orders it and what the reference strategy reads. */
  datatype Bar = Bar(symbol: string, openTimeUtc: Instant, closeTimeUtc: Instant, closeQuotePrice: real)

  datatype Observation =
    | ClosedBar(bar: Bar)
    | Tick(symbol: string, eventTimeUtc: Instant, quotePrice: real)

  datatype Event =
    | MarketDataEvent(observation: Observation)
    | FundingEvent(instrument: string, settledAtUtc: Instant, fundingRate: real)
    | OrderAckEvent(orderId: nat, ackedAtUtc: Instant)
    | FillEvent(fillId: nat, fillTimeUtc: Instant)
    | RejectEvent(rejectedOrderId: nat, rejectedAtUtc: Instant, reason: string)
    | TimerEvent(strategyId: string, wakesAtUtc: Instant, wakeLabel: string)
    | ReconciliationEvent(venue: string, sweptAtUtc: Instant)
  {
    /** The instant the loop dispatches at. A bar is derived from its close, never its open. */
    function OccursAtUtc(): Instant {
      match this
      case MarketDataEvent(ClosedBar(bar)) => bar.closeTimeUtc
      case MarketDataEvent(Tick(_, at, _)) => at
      case FundingEvent(_, at, _) => at
      case OrderAckEvent(_, at) => at
      case FillEvent(_, at) => at
      case RejectEvent(_, at, _) => at
      case TimerEvent(_, at, _) => at
      case ReconciliationEvent(_, at) => at
    }

    function Priority(): Priority {
      match this
      case MarketDataEvent(_) => MarketData
      case FundingEvent(_, _, _) => Funding
      case OrderAckEvent(_, _) => Venue
      case FillEvent(_, _) => Venue
      case RejectEvent(_, _, _) => Venue
      case TimerEvent(_, _, _) => Timer
      case ReconciliationEvent(_, _) => Reconciliation
    }
  }

  /** An event with the position the queue gave it. */
  datatype QueuedEvent = QueuedEvent(occursAtUtc: Instant, priority: Priority, sequence: nat, event: Event) {
    ghost predicate WellFormed() {
      occursAtUtc == event.OccursAtUtc() && priority == event.Priority()
    }
  }

  predicate Less(a: QueuedEvent, b: QueuedEvent) {
    || a.occursAtUtc < b.occursAtUtc
    || (a.occursAtUtc == b.occursAtUtc &&
        (|| a.priority.Band() < b.priority.Band()
         || (a.priority.Band() == b.priority.Band() && a.sequence < b.sequence)))
  }

  ghost predicate SequencesDistinct(s: set<QueuedEvent>) {
    forall a, b :: a in s && b in s && a.sequence == b.sequence ==> a == b
  }

  ghost predicate IsLeast(a: QueuedEvent, s: set<QueuedEvent>) {
    a in s && forall b :: b in s ==> !Less(b, a)
  }

  lemma {:induction false} LeastExists(s: set<QueuedEvent>)
    requires s != {}
    ensures exists a :: IsLeast(a, s)
    decreases |s|
  {
    var x :| x in s;
    var rest := s - {x};
    if rest == {} {
      assert s == {x};
      assert IsLeast(x, s);
    } else {
      LeastExists(rest);
      var m :| IsLeast(m, rest);
      var least := if Less(x, m) then x else m;
      assert forall b :: b in s ==> b == x || b in rest;
      assert IsLeast(least, s);
    }
  }

  /** The event dispatched next. `LeastIsUnique` says the choice is no choice at all. */
  ghost function Least(s: set<QueuedEvent>): (a: QueuedEvent)
    requires s != {}
    ensures IsLeast(a, s)
  {
    LeastExists(s);
    var a :| IsLeast(a, s);
    a
  }

  /** The insertion counter makes the key injective, so a queue has one least event. */
  lemma LeastIsUnique(a: QueuedEvent, s: set<QueuedEvent>)
    requires IsLeast(a, s) && SequencesDistinct(s)
    ensures a == Least(s)
    ensures forall b :: b in s && b != a ==> Less(a, b)
  {
    assert forall b :: b in s && b != a ==> b.sequence != a.sequence;
    var m := Least(s);
    assert !Less(m, a) && !Less(a, m);
  }
}
