/** Running a strategy that watches closing prices and asks for a timer, at the instant of the
    bar in hand, whenever a rule over the closes says so. Whatever the rule and whatever order the
    bars are handed over in, a run dispatches the bars by close, and the timers an instant's bars
    asked for once that instant has no more bars. */
module SignalRun {
  import opened Causality
  import opened EngineModel
  import opened Events
  import opened Options
  import opened Sequences

  /** The rule: the label of the timer to ask for after these closes, if any. */
  type Signal = seq<real> -> Option<string>

  function SignalTimer(bar: Bar, wakeLabel: string): Event {
    TimerEvent("bench-crossover", bar.closeTimeUtc, wakeLabel)
  }

  function ClosesOf(history: seq<Event>): seq<real> {
    if history == [] then []
    else ClosesOf(history[..|history| - 1]) +
         match history[|history| - 1]
         case MarketDataEvent(ClosedBar(bar)) => [bar.closeQuotePrice]
         case _ => []
  }

  function SignalReaction(signal: Signal, history: seq<Event>): Reaction {
    if history == [] then Reaction([], Returns)
    else match history[|history| - 1]
      case MarketDataEvent(ClosedBar(bar)) =>
        (match signal(ClosesOf(history))
         case None => Reaction([], Returns)
         case Some(wakeLabel) => Reaction([Request(SignalTimer(bar, wakeLabel), false)], Returns))
      case _ => Reaction([], Returns)
  }

  lemma ReactionToBar(signal: Signal, history: seq<Event>, bar: Bar)
    ensures var e := BarEvent(bar);
      var seen := ClosesOf(history) + [bar.closeQuotePrice];
      && ClosesOf(history + [e]) == seen
      && SignalReaction(signal, history + [e]).ending == Returns
      && SignalReaction(signal, history + [e]).requests ==
         if signal(seen).None? then [] else [Request(SignalTimer(bar, signal(seen).value), false)]
  {
    assert (history + [BarEvent(bar)])[..|history|] == history;
  }

  lemma ReactionToOther(signal: Signal, history: seq<Event>, e: Event)
    requires !(e.MarketDataEvent? && e.observation.ClosedBar?)
    ensures ClosesOf(history + [e]) == ClosesOf(history) && SignalReaction(signal, history + [e]) == Reaction([], Returns)
  {
    assert (history + [e])[..|history|] == history;
  }

  function SignalHandler(signal: Signal): Handler {
    (history: seq<Event>, beyond: nat) => SignalReaction(signal, history)
  }

  function SignalCount(signal: Signal, closes: seq<real>): nat {
    if closes == [] then 0
    else SignalCount(signal, closes[..|closes| - 1]) + if signal(closes).Some? then 1 else 0
  }

  ghost predicate Ascending(bars: seq<Bar>) {
    forall i, j :: 0 <= i < j < |bars| ==> bars[i].closeTimeUtc < bars[j].closeTimeUtc
  }

  function BarEvent(bar: Bar): Event {
    MarketDataEvent(ClosedBar(bar))
  }

  function AsEvents(bars: seq<Bar>): (events: seq<Event>)
    ensures |events| == |bars|
  {
    seq(|bars|, i requires 0 <= i < |bars| => BarEvent(bars[i]))
  }

  function AsRequests(bars: seq<Bar>): (requests: seq<Request>)
    ensures |requests| == |bars|
  {
    seq(|bars|, i requires 0 <= i < |bars| => Request(BarEvent(bars[i]), false))
  }

  function ClosePrices(bars: seq<Bar>): (closes: seq<real>)
    ensures |closes| == |bars|
  {
    seq(|bars|, i requires 0 <= i < |bars| => bars[i].closeQuotePrice)
  }

  /** The timer a bar asks for, if it signals. */
  function TimerOf(signal: Signal, bar: Bar, seen: seq<real>): (timers: seq<Event>)
    ensures |timers| == if signal(seen).Some? then 1 else 0
  {
    match signal(seen)
    case None => []
    case Some(wakeLabel) => [SignalTimer(bar, wakeLabel)]
  }

  /** The events a run over `bars` in close order should dispatch, after `closes` have been observed
      and with `waiting` timers asked for: bars first while any is due, then the timers, in turn. */
  function Expected(signal: Signal, bars: seq<Bar>, closes: seq<real>, waiting: seq<Event>): seq<Event>
    decreases |bars|, |waiting|
  {
    if waiting != [] && (bars == [] || bars[0].closeTimeUtc > waiting[0].OccursAtUtc()) then
      [waiting[0]] + Expected(signal, bars, closes, waiting[1..])
    else if bars == [] then []
    else
      var seen := closes + [bars[0].closeQuotePrice];
      [BarEvent(bars[0])] + Expected(signal, bars[1..], seen, waiting + TimerOf(signal, bars[0], seen))
  }

  /** One event for every bar, every timer waiting, and every signal to come. */
  lemma {:induction false} ExpectedLength(signal: Signal, bars: seq<Bar>, closes: seq<real>, waiting: seq<Event>)
    ensures |Expected(signal, bars, closes, waiting)| + SignalCount(signal, closes) ==
            |bars| + |waiting| + SignalCount(signal, closes + ClosePrices(bars))
    decreases |bars|, |waiting|
  {
    if waiting != [] && (bars == [] || bars[0].closeTimeUtc > waiting[0].OccursAtUtc()) {
      ExpectedLength(signal, bars, closes, waiting[1..]);
    } else if bars == [] {
      assert closes + ClosePrices(bars) == closes;
    } else {
      var seen := closes + [bars[0].closeQuotePrice];
      ExpectedLength(signal, bars[1..], seen, waiting + TimerOf(signal, bars[0], seen));
      assert seen + ClosePrices(bars[1..]) == closes + ClosePrices(bars);
      assert seen[..|closes|] == closes;
    }
  }

  /** Each bar, and right behind it its timer if it signalled. */
  function Paired(signal: Signal, bars: seq<Bar>, closes: seq<real>): seq<Event> {
    if bars == [] then []
    else
      var seen := closes + [bars[0].closeQuotePrice];
      [BarEvent(bars[0])] + TimerOf(signal, bars[0], seen) + Paired(signal, bars[1..], seen)
  }

  /** Of strictly increasing bars each is followed at once by its timer. */
  lemma {:induction false} IncreasingBarsArePaired(signal: Signal, bars: seq<Bar>, closes: seq<real>)
    requires Ascending(bars)
    ensures Expected(signal, bars, closes, []) == Paired(signal, bars, closes)
    decreases bars
  {
    if bars != [] {
      var seen := closes + [bars[0].closeQuotePrice];
      var timers := TimerOf(signal, bars[0], seen);
      assert [] + timers == timers;
      if timers != [] {
        assert timers[1..] == [] && timers == [timers[0]];
        assert Expected(signal, bars[1..], seen, timers) == timers + Expected(signal, bars[1..], seen, []);
      }
      IncreasingBarsArePaired(signal, bars[1..], seen);
    }
  }

  // ----- handing the bars over

  /** Put a bar behind every bar that closes no later. */
  function InsertBar(sorted: seq<Bar>, bar: Bar): seq<Bar> {
    if sorted == [] || bar.closeTimeUtc < sorted[0].closeTimeUtc then [bar] + sorted
    else [sorted[0]] + InsertBar(sorted[1..], bar)
  }

  /** The bars by close, equal closes in the order they came. */
  function ByClose(bars: seq<Bar>): seq<Bar> {
    if bars == [] then [] else InsertBar(ByClose(bars[..|bars| - 1]), bars[|bars| - 1])
  }

  ghost predicate NotDescending(bars: seq<Bar>) {
    forall i, j :: 0 <= i < j < |bars| ==> bars[i].closeTimeUtc <= bars[j].closeTimeUtc
  }

  lemma {:induction false} InsertPlaces(sorted: seq<Bar>, bar: Bar) returns (k: nat)
    ensures k <= |sorted| && InsertBar(sorted, bar) == WithInserted(sorted, k, bar)
    decreases |sorted|
  {
    if sorted == [] || bar.closeTimeUtc < sorted[0].closeTimeUtc {
      k := 0;
      assert [bar] + sorted == WithInserted(sorted, 0, bar);
    } else {
      var j := InsertPlaces(sorted[1..], bar);
      InsertedFurther(sorted, j, bar);
      k := j + 1;
    }
  }

  lemma InsertKeepsBars(sorted: seq<Bar>, bar: Bar)
    ensures multiset(InsertBar(sorted, bar)) == multiset(sorted) + multiset{bar}
  {
    var k := InsertPlaces(sorted, bar);
    MultisetWithInserted(sorted, k, bar);
  }

  lemma {:induction false} InsertMembers(sorted: seq<Bar>, bar: Bar, x: Bar)
    ensures x in InsertBar(sorted, bar) <==> x == bar || x in sorted
    decreases sorted
  {
    if sorted != [] && bar.closeTimeUtc >= sorted[0].closeTimeUtc {
      InsertMembers(sorted[1..], bar, x);
      assert sorted == [sorted[0]] + sorted[1..];
    }
  }

  lemma FirstNotLater(first: Bar, rest: seq<Bar>)
    requires NotDescending(rest) && forall x :: x in rest ==> first.closeTimeUtc <= x.closeTimeUtc
    ensures NotDescending([first] + rest)
  {
    forall j | 0 <= j < |rest| ensures first.closeTimeUtc <= rest[j].closeTimeUtc {
      assert rest[j] in rest;
    }
  }

  lemma TailOfNotDescending(sorted: seq<Bar>)
    requires NotDescending(sorted) && sorted != []
    ensures NotDescending(sorted[1..]) && forall x :: x in sorted ==> sorted[0].closeTimeUtc <= x.closeTimeUtc
  {
  }

  lemma {:induction false} InsertKeepsOrder(sorted: seq<Bar>, bar: Bar)
    requires NotDescending(sorted)
    ensures NotDescending(InsertBar(sorted, bar))
    decreases sorted
  {
    if sorted != [] {
      TailOfNotDescending(sorted);
      if bar.closeTimeUtc < sorted[0].closeTimeUtc {
        FirstNotLater(bar, sorted);
      } else {
        InsertKeepsOrder(sorted[1..], bar);
        forall x | x in InsertBar(sorted[1..], bar) ensures sorted[0].closeTimeUtc <= x.closeTimeUtc {
          InsertMembers(sorted[1..], bar, x);
        }
        FirstNotLater(sorted[0], InsertBar(sorted[1..], bar));
      }
    }
  }

  /** Ordering by close keeps every bar, as often as it was there. */
  lemma {:induction false} ByCloseKeepsBars(bars: seq<Bar>)
    ensures multiset(ByClose(bars)) == multiset(bars)
    decreases |bars|
  {
    if bars != [] {
      var n := |bars| - 1;
      ByCloseKeepsBars(bars[..n]);
      InsertKeepsBars(ByClose(bars[..n]), bars[n]);
      MultisetOfLast(bars);
    }
  }

  lemma SameSize(a: seq<Bar>, b: seq<Bar>)
    requires multiset(a) == multiset(b)
    ensures |a| == |b|
  {
    assert |multiset(a)| == |a| && |multiset(b)| == |b|;
  }

  lemma {:induction false} ByCloseIsInOrder(bars: seq<Bar>)
    ensures NotDescending(ByClose(bars))
    decreases |bars|
  {
    if bars != [] {
      ByCloseIsInOrder(bars[..|bars| - 1]);
      InsertKeepsOrder(ByClose(bars[..|bars| - 1]), bars[|bars| - 1]);
    }
  }

  lemma ByCloseStaysInWindow(config: RunConfig, bars: seq<Bar>)
    requires InWindow(config, bars)
    ensures InWindow(config, ByClose(bars))
  {
    ByCloseKeepsBars(bars);
    forall i | 0 <= i < |ByClose(bars)| ensures config.startUtc <= ByClose(bars)[i].closeTimeUtc <= config.endUtc {
      assert ByClose(bars)[i] in multiset(ByClose(bars));
      assert ByClose(bars)[i] in bars;
    }
  }

  lemma {:induction false} InsertLast(sorted: seq<Bar>, bar: Bar)
    requires forall i :: 0 <= i < |sorted| ==> sorted[i].closeTimeUtc <= bar.closeTimeUtc
    ensures InsertBar(sorted, bar) == sorted + [bar]
    decreases sorted
  {
    if sorted != [] {
      InsertLast(sorted[1..], bar);
    }
  }

  lemma {:induction false} AscendingStays(bars: seq<Bar>)
    requires Ascending(bars)
    ensures ByClose(bars) == bars
    decreases |bars|
  {
    if bars != [] {
      var n := |bars| - 1;
      AscendingStays(bars[..n]);
      InsertLast(bars[..n], bars[n]);
    }
  }

  ghost predicate InWindow(config: RunConfig, bars: seq<Bar>) {
    forall i :: 0 <= i < |bars| ==> config.startUtc <= bars[i].closeTimeUtc <= config.endUtc
  }

  lemma {:induction false} EnqueueBar(sorted: seq<Bar>, bar: Bar)
    ensures Enqueue(AsEvents(sorted), BarEvent(bar)) == AsEvents(InsertBar(sorted, bar))
    decreases sorted
  {
    if sorted == [] || bar.closeTimeUtc < sorted[0].closeTimeUtc {
      assert AsEvents([bar] + sorted) == [BarEvent(bar)] + AsEvents(sorted);
    } else {
      EnqueueBar(sorted[1..], bar);
      assert AsEvents(sorted)[1..] == AsEvents(sorted[1..]);
      assert AsEvents([sorted[0]] + InsertBar(sorted[1..], bar)) == [BarEvent(sorted[0])] + AsEvents(InsertBar(sorted[1..], bar));
    }
  }

  lemma {:induction false} BarsJoin(config: RunConfig, joined: seq<Bar>, bars: seq<Bar>)
    requires InWindow(config, bars)
    ensures var line := Line(config.startUtc, AsEvents(ByClose(joined)), 0, [], []);
      JoinAll(config, line, AsRequests(bars), Returns) == (line.(pending := AsEvents(ByClose(joined + bars))), None)
    decreases bars
  {
    if bars == [] {
      assert joined + bars == joined;
    } else {
      var bar := bars[0];
      EnqueueBar(ByClose(joined), bar);
      assert (joined + [bar])[..|joined|] == joined;
      assert (joined + [bar]) + bars[1..] == joined + bars;
      assert AsRequests(bars)[1..] == AsRequests(bars[1..]);
      BarsJoin(config, joined + [bar], bars[1..]);
    }
  }

  // ----- serving

  /** The line in front of a run: the bars that are due, the timers waiting, the later bars. */
  function Merged(bars: seq<Bar>, waiting: seq<Event>): seq<Event>
    decreases |bars|, |waiting|
  {
    if bars == [] then waiting
    else if waiting == [] || bars[0].closeTimeUtc <= waiting[0].OccursAtUtc() then [BarEvent(bars[0])] + Merged(bars[1..], waiting)
    else [waiting[0]] + Merged(bars, waiting[1..])
  }

  lemma {:induction false} MergedBarsOnly(bars: seq<Bar>)
    ensures Merged(bars, []) == AsEvents(bars)
    decreases bars
  {
    if bars != [] {
      MergedBarsOnly(bars[1..]);
    }
  }

  /** No bar closes before `now`, and every timer waiting is for `now`. */
  ghost predicate Lined(bars: seq<Bar>, waiting: seq<Event>, now: Instant) {
    && NotDescending(bars)
    && (forall i :: 0 <= i < |bars| ==> now <= bars[i].closeTimeUtc)
    && (forall i :: 0 <= i < |waiting| ==> waiting[i].TimerEvent? && waiting[i].OccursAtUtc() == now)
  }

  lemma {:induction false} TimerJoinsBehind(bars: seq<Bar>, waiting: seq<Event>, timer: Event)
    requires timer.TimerEvent? && Lined(bars, waiting, timer.OccursAtUtc())
    ensures Enqueue(Merged(bars, waiting), timer) == Merged(bars, waiting + [timer])
    decreases |bars|, |waiting|
  {
    if bars == [] {
      EnqueueLast(waiting, timer);
    } else if bars[0].closeTimeUtc <= timer.OccursAtUtc() {
      TimerJoinsBehind(bars[1..], waiting, timer);
    } else if waiting == [] {
      assert waiting + [timer] == [timer] && [timer][1..] == [];
    } else {
      TimerJoinsBehind(bars, waiting[1..], timer);
      assert (waiting + [timer])[1..] == waiting[1..] + [timer];
    }
  }

  lemma {:induction false} EnqueueLast(pending: seq<Event>, e: Event)
    requires forall i :: 0 <= i < |pending| ==> !Ahead(e, pending[i])
    ensures Enqueue(pending, e) == pending + [e]
  {
    if pending != [] {
      EnqueueLast(pending[1..], e);
    }
  }

  /** A line that holds just these bars and timers. */
  ghost predicate Holds(line: Line, bars: seq<Bar>, closes: seq<real>, waiting: seq<Event>) {
    line.pending == Merged(bars, waiting) && Lined(bars, waiting, line.now) && ClosesOf(line.history) == closes
  }

  lemma NextBarLined(bars: seq<Bar>, waiting: seq<Event>, now: Instant)
    requires Lined(bars, waiting, now) && bars != [] && (waiting == [] || bars[0].closeTimeUtc <= waiting[0].OccursAtUtc())
    ensures Lined(bars[1..], waiting, bars[0].closeTimeUtc)
    ensures Merged(bars, waiting) == [BarEvent(bars[0])] + Merged(bars[1..], waiting)
  {
  }

  lemma OneMoreLined(bars: seq<Bar>, waiting: seq<Event>, timer: Event, now: Instant)
    requires Lined(bars, waiting, now) && timer.TimerEvent? && timer.OccursAtUtc() == now
    ensures Lined(bars, waiting + [timer], now)
  {
  }

  /** The line once a bar has left it, and its timer has joined if it signals. */
  function AfterBar(config: RunConfig, signal: Signal, line: Line, bar: Bar, seen: seq<real>): Line
    requires line.pending != []
  {
    if signal(seen).None? then Served(line) else JoinLine(config, Served(line), SignalTimer(bar, signal(seen).value))
  }

  lemma ServeOneBar(config: RunConfig, signal: Signal, line: Line, bar: Bar)
    requires line.pending != [] && line.pending[0] == BarEvent(bar)
    ensures var seen := ClosesOf(line.history) + [bar.closeQuotePrice];
      && Serve(config, SignalHandler(signal), line) == (AfterBar(config, signal, line, bar, seen), None)
      && ClosesOf(AfterBar(config, signal, line, bar, seen).history) == seen
  {
    var seen := ClosesOf(line.history) + [bar.closeQuotePrice];
    ReactionToBar(signal, line.history, bar);
    if signal(seen).Some? {
      JoinOne(config, Served(line), SignalTimer(bar, signal(seen).value));
    }
  }

  lemma ServeBar(config: RunConfig, signal: Signal, line: Line, bars: seq<Bar>, closes: seq<real>, waiting: seq<Event>)
    requires Holds(line, bars, closes, waiting) && bars != [] && bars[0].closeTimeUtc <= config.endUtc
    requires waiting == [] || bars[0].closeTimeUtc <= waiting[0].OccursAtUtc()
    ensures var seen := closes + [bars[0].closeQuotePrice];
      var (after, stop) := Serve(config, SignalHandler(signal), line);
      && stop.None? && after.history == line.history + [BarEvent(bars[0])]
      && Holds(after, bars[1..], seen, waiting + TimerOf(signal, bars[0], seen))
  {
    var bar := bars[0];
    NextBarLined(bars, waiting, line.now);
    ServeOneBar(config, signal, line, bar);
    HoldsAfterBar(config, signal, line, bars, waiting, closes + [bar.closeQuotePrice]);
  }

  lemma HoldsAfterBar(config: RunConfig, signal: Signal, line: Line, bars: seq<Bar>, waiting: seq<Event>, seen: seq<real>)
    requires bars != [] && bars[0].closeTimeUtc <= config.endUtc
    requires line.pending == [BarEvent(bars[0])] + Merged(bars[1..], waiting) && Lined(bars[1..], waiting, bars[0].closeTimeUtc)
    ensures var after := AfterBar(config, signal, line, bars[0], seen);
      && after.history == line.history + [BarEvent(bars[0])] && after.now == bars[0].closeTimeUtc
      && after.pending == Merged(bars[1..], waiting + TimerOf(signal, bars[0], seen))
      && Lined(bars[1..], waiting + TimerOf(signal, bars[0], seen), after.now)
  {
    assert Served(line).pending == Merged(bars[1..], waiting);
    if signal(seen).Some? {
      var timer := SignalTimer(bars[0], signal(seen).value);
      TimerJoinsBehind(bars[1..], waiting, timer);
      OneMoreLined(bars[1..], waiting, timer, bars[0].closeTimeUtc);
    } else {
      assert waiting + [] == waiting;
    }
  }

  lemma TimerLeads(bars: seq<Bar>, waiting: seq<Event>)
    requires waiting != [] && (bars == [] || bars[0].closeTimeUtc > waiting[0].OccursAtUtc())
    ensures Merged(bars, waiting) == [waiting[0]] + Merged(bars, waiting[1..])
  {
    if bars == [] { assert waiting == [waiting[0]] + waiting[1..]; }
  }

  lemma TimerLeavesLined(bars: seq<Bar>, waiting: seq<Event>, now: Instant)
    requires Lined(bars, waiting, now) && waiting != []
    ensures Lined(bars, waiting[1..], waiting[0].OccursAtUtc()) && waiting[0].TimerEvent?
  {
  }

  lemma ServeTimer(config: RunConfig, signal: Signal, line: Line, bars: seq<Bar>, closes: seq<real>, waiting: seq<Event>)
    requires Holds(line, bars, closes, waiting) && waiting != []
    requires bars == [] || bars[0].closeTimeUtc > waiting[0].OccursAtUtc()
    ensures var (after, stop) := Serve(config, SignalHandler(signal), line);
      && stop.None? && after.history == line.history + [waiting[0]]
      && Holds(after, bars, closes, waiting[1..])
  {
    TimerLeads(bars, waiting);
    TimerLeavesLined(bars, waiting, line.now);
    ReactionToOther(signal, line.history, waiting[0]);
    assert line.pending[0] == waiting[0] && line.pending[1..] == Merged(bars, waiting[1..]);
  }

  function Smaller(a: nat, b: nat): nat {
    if a <= b then a else b
  }

  /** Serving the line to its end, or to the end of the budget, makes `whole` of its history. */
  ghost predicate Delivers(config: RunConfig, signal: Signal, line: Line, whole: seq<Event>) {
    var (last, stop) := ServeAll(config, SignalHandler(signal), line);
    && last.history == whole[..Smaller(|whole|, config.eventBudget)]
    && stop == if |whole| <= config.eventBudget then Drained else BudgetExhausted
  }

  lemma DeliversOneMore(config: RunConfig, signal: Signal, line: Line, e: Event, rest: seq<Event>)
    requires line.pending != [] && |line.history| < config.eventBudget
    requires Serve(config, SignalHandler(signal), line).1.None?
    requires Delivers(config, signal, Serve(config, SignalHandler(signal), line).0, line.history + [e] + rest)
    ensures Delivers(config, signal, line, line.history + ([e] + rest))
  {
    assert line.history + [e] + rest == line.history + ([e] + rest);
  }

  lemma DeliversNoMore(config: RunConfig, signal: Signal, line: Line, rest: seq<Event>)
    requires (line.pending == [] <==> rest == []) && (rest == [] || |line.history| == config.eventBudget) && |line.history| <= config.eventBudget
    ensures Delivers(config, signal, line, line.history + rest)
  {
    assert (line.history + rest)[..|line.history|] == line.history;
  }

  lemma {:induction false} ServeExpected(config: RunConfig, signal: Signal, line: Line, bars: seq<Bar>, closes: seq<real>, waiting: seq<Event>)
    requires Holds(line, bars, closes, waiting) && |line.history| <= config.eventBudget
    requires forall i :: 0 <= i < |bars| ==> bars[i].closeTimeUtc <= config.endUtc
    ensures Delivers(config, signal, line, line.history + Expected(signal, bars, closes, waiting))
    decreases |bars|, |waiting|
  {
    if line.pending == [] || |line.history| == config.eventBudget {
      DeliversNoMore(config, signal, line, Expected(signal, bars, closes, waiting));
    } else if waiting != [] && (bars == [] || bars[0].closeTimeUtc > waiting[0].OccursAtUtc()) {
      ServeTimer(config, signal, line, bars, closes, waiting);
      ServeExpected(config, signal, Serve(config, SignalHandler(signal), line).0, bars, closes, waiting[1..]);
      DeliversOneMore(config, signal, line, waiting[0], Expected(signal, bars, closes, waiting[1..]));
    } else {
      var seen := closes + [bars[0].closeQuotePrice];
      var timers := waiting + TimerOf(signal, bars[0], seen);
      ServeBar(config, signal, line, bars, closes, waiting);
      ServeExpected(config, signal, Serve(config, SignalHandler(signal), line).0, bars[1..], seen, timers);
      DeliversOneMore(config, signal, line, BarEvent(bars[0]), Expected(signal, bars[1..], seen, timers));
    }
  }

  /** The line a run over bars is served from. */
  function FirstLine(config: RunConfig, bars: seq<Bar>): Line {
    Line(config.startUtc, AsEvents(ByClose(bars)), 0, [], [])
  }

  lemma RunStartsInLine(config: RunConfig, signal: Signal, bars: seq<Bar>)
    requires InWindow(config, bars)
    ensures RunLine(config, SignalHandler(signal), Reaction(AsRequests(bars), Returns)) == ServeAll(config, SignalHandler(signal), FirstLine(config, bars))
  {
    assert [] + bars == bars && AsEvents(ByClose([])) == [];
    BarsJoin(config, [], bars);
  }

  lemma FirstLineHoldsBars(config: RunConfig, bars: seq<Bar>)
    requires InWindow(config, bars)
    ensures Holds(FirstLine(config, bars), ByClose(bars), [], [])
  {
    ByCloseIsInOrder(bars);
    ByCloseStaysInWindow(config, bars);
    MergedBarsOnly(ByClose(bars));
  }

  lemma LineDelivers(config: RunConfig, signal: Signal, bars: seq<Bar>)
    requires config.Valid() && InWindow(config, bars)
    ensures Delivers(config, signal, FirstLine(config, bars), Expected(signal, ByClose(bars), [], []))
  {
    FirstLineHoldsBars(config, bars);
    ByCloseStaysInWindow(config, bars);
    ServeExpected(config, signal, FirstLine(config, bars), ByClose(bars), [], []);
    assert [] + Expected(signal, ByClose(bars), [], []) == Expected(signal, ByClose(bars), [], []);
  }

  lemma LoopDelivers(config: RunConfig, signal: Signal, bars: seq<Bar>, whole: seq<Event>)
    requires config.Valid() && InWindow(config, bars) && Delivers(config, signal, FirstLine(config, bars), whole)
    ensures var (last, stop) := RunLoop(config, SignalHandler(signal), Reaction(AsRequests(bars), Returns));
      && EventsOf(last.trace) == whole[..Smaller(|whole|, config.eventBudget)]
      && stop == if |whole| <= config.eventBudget then Drained else BudgetExhausted
  {
    RunIsFirstComeFirstServed(config, SignalHandler(signal), Reaction(AsRequests(bars), Returns));
    RunStartsInLine(config, signal, bars);
  }

  lemma TotalExpected(signal: Signal, bars: seq<Bar>)
    ensures |Expected(signal, ByClose(bars), [], [])| == |bars| + SignalCount(signal, ClosePrices(ByClose(bars)))
  {
    ByCloseKeepsBars(bars);
    SameSize(ByClose(bars), bars);
    ExpectedLength(signal, ByClose(bars), [], []);
    assert [] + ClosePrices(ByClose(bars)) == ClosePrices(ByClose(bars));
  }

  /** Over any bars inside the window, handed over in any order, the run dispatches exactly the
      expected events. It completes exactly when the budget covers one event per bar and one per
      signal over the closes in time order, and is otherwise cut off at the budget. */
  lemma SignalRunDispatches(config: RunConfig, signal: Signal, bars: seq<Bar>)
    requires config.Valid() && InWindow(config, bars)
    ensures var (last, stop) := RunLoop(config, SignalHandler(signal), Reaction(AsRequests(bars), Returns));
      var whole := Expected(signal, ByClose(bars), [], []);
      var total := |bars| + SignalCount(signal, ClosePrices(ByClose(bars)));
      && |whole| == total
      && EventsOf(last.trace) == whole[..Smaller(total, config.eventBudget)]
      && stop == if total <= config.eventBudget then Drained else BudgetExhausted
  {
    TotalExpected(signal, bars);
    LineDelivers(config, signal, bars);
    LoopDelivers(config, signal, bars, Expected(signal, ByClose(bars), [], []));
  }
}
