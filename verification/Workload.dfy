/** The reference workload: the moving-average crossover strategy, the paths it is evaluated on
    through the event loop, and the counter that replays it without one. */
module Workload {
  import Engine
  import opened EngineModel
  import opened Events
  import opened Options
  import opened SignalRun

  const FAST_WINDOW_BARS: nat := 20
  const SLOW_WINDOW_BARS: nat := 60

  function Sum(s: seq<real>): real {
    if s == [] then 0.0 else Sum(s[..|s| - 1]) + s[|s| - 1]
  }

  /** The last `n` closes, or all of them while there are fewer. */
  function Last(closes: seq<real>, n: nat): seq<real> {
    if |closes| <= n then closes else closes[|closes| - n..]
  }

  function Mean(closes: seq<real>): real
    requires closes != []
  {
    Sum(closes) / |closes| as real
  }

  /** What the strategy is about: the fast mean lies above the slow one. */
  predicate FastAbove(closes: seq<real>)
    requires |closes| >= SLOW_WINDOW_BARS
  {
    Mean(Last(closes, FAST_WINDOW_BARS)) > Mean(Last(closes, SLOW_WINDOW_BARS))
  }

  /** The last close moved the fast mean to the other side of the slow one. */
  predicate Crosses(closes: seq<real>) {
    |closes| > SLOW_WINDOW_BARS && FastAbove(closes) != FastAbove(closes[..|closes| - 1])
  }

  lemma {:induction false} SumAppend(s: seq<real>, x: real)
    ensures Sum(s + [x]) == Sum(s) + x
  {
    assert (s + [x])[..|s|] == s;
  }

  lemma {:induction false} SumDropFirst(s: seq<real>)
    requires s != []
    ensures Sum(s[1..]) == Sum(s) - s[0]
    decreases |s|
  {
    if |s| > 1 {
      var init := s[..|s| - 1];
      SumDropFirst(init);
      assert s[1..][..|s| - 2] == init[1..];
    } else {
      assert s[..0] == [] && s[1..] == [];
    }
  }

  /** The window total after one more close, with the close that leaves it taken off. */
  lemma WindowSlides(closes: seq<real>, close: real, n: nat)
    requires n > 0
    ensures var longer := closes + [close];
      Sum(Last(longer, n)) == Sum(Last(closes, n)) + close - if |longer| > n then longer[|longer| - n - 1] else 0.0
  {
    var longer := closes + [close];
    SumAppend(Last(closes, n), close);
    if |longer| > n {
      var wide := Last(closes, n) + [close];
      SumDropFirst(wide);
      assert wide[1..] == Last(longer, n);
      assert wide[0] == longer[|longer| - n - 1];
    } else {
      assert Last(longer, n) == Last(closes, n) + [close];
    }
  }

  /** Comparing cross-multiplied totals is comparing the means. */
  lemma CrossMultiplied(closes: seq<real>)
    requires |closes| >= SLOW_WINDOW_BARS
    ensures FastAbove(closes) <==>
            Sum(Last(closes, FAST_WINDOW_BARS)) * SLOW_WINDOW_BARS as real > Sum(Last(closes, SLOW_WINDOW_BARS)) * FAST_WINDOW_BARS as real
  {
    var fast, slow := Sum(Last(closes, FAST_WINDOW_BARS)), Sum(Last(closes, SLOW_WINDOW_BARS));
    assert Mean(Last(closes, FAST_WINDOW_BARS)) == fast / 20.0 && Mean(Last(closes, SLOW_WINDOW_BARS)) == slow / 60.0;
    assert fast / 20.0 * 1200.0 == fast * 60.0 && slow / 60.0 * 1200.0 == slow * 20.0;
  }

  /** The crossover rule, labelled by the side the fast mean is on now. */
  function CrossSignal(closes: seq<real>): Option<string> {
    if Crosses(closes) then Some(if FastAbove(closes) then "cross-up" else "cross-down") else None
  }

  class CrossoverHandler {
    var closes: seq<real>
    var fastTotalQuote: real
    var slowTotalQuote: real
    var fastAboveSlow: Option<bool>
    var crossings: nat

    /** The rolling totals are the sums of the last 20 and 60 closes, always. */
    ghost predicate Valid()
      reads this
    {
      && fastTotalQuote == Sum(Last(closes, FAST_WINDOW_BARS))
      && slowTotalQuote == Sum(Last(closes, SLOW_WINDOW_BARS))
      && fastAboveSlow == (if |closes| < SLOW_WINDOW_BARS then None else Some(FastAbove(closes)))
      && crossings == SignalCount(CrossSignal, closes)
    }

    constructor ()
      ensures Valid() && closes == [] && crossings == 0
    {
      closes := [];
      fastTotalQuote := 0.0;
      slowTotalQuote := 0.0;
      fastAboveSlow := None;
      crossings := 0;
    }

    /** Feed one close; true when the fast mean has just crossed the slow one. */
    method Observe(closeQuotePrice: real) returns (crossed: bool)
      requires Valid()
      modifies this
      ensures Valid() && closes == old(closes) + [closeQuotePrice]
      ensures CrossSignal(closes) == if crossed then Some(if fastAboveSlow == Some(true) then "cross-up" else "cross-down") else None
    {
      WindowSlides(closes, closeQuotePrice, FAST_WINDOW_BARS);
      WindowSlides(closes, closeQuotePrice, SLOW_WINDOW_BARS);
      closes := closes + [closeQuotePrice];
      assert closes[..|closes| - 1] == old(closes);
      fastTotalQuote := fastTotalQuote + closeQuotePrice;
      slowTotalQuote := slowTotalQuote + closeQuotePrice;
      if |closes| > FAST_WINDOW_BARS {
        fastTotalQuote := fastTotalQuote - closes[|closes| - FAST_WINDOW_BARS - 1];
      }
      if |closes| > SLOW_WINDOW_BARS {
        slowTotalQuote := slowTotalQuote - closes[|closes| - SLOW_WINDOW_BARS - 1];
      }
      if |closes| < SLOW_WINDOW_BARS {
        return false;
      }
      CrossMultiplied(closes);
      var fastAbove := fastTotalQuote * SLOW_WINDOW_BARS as real > slowTotalQuote * FAST_WINDOW_BARS as real;
      crossed := fastAboveSlow.Some? && fastAbove != fastAboveSlow.value;
      fastAboveSlow := Some(fastAbove);
      if crossed {
        crossings := crossings + 1;
      }
    }

    /** What one dispatched event makes the object ask for is what the handler function says. */
    method OnEvent(event: Event, ghost history: seq<Event>) returns (reaction: Reaction)
      requires Valid() && closes == ClosesOf(history)
      modifies this
      ensures Valid() && closes == ClosesOf(history + [event])
      ensures reaction == SignalReaction(CrossSignal, history + [event])
    {
      match event
      case MarketDataEvent(ClosedBar(bar)) =>
        ReactionToBar(CrossSignal, history, bar);
        var crossed := Observe(bar.closeQuotePrice);
        if crossed {
          var timer := TimerEvent("bench-crossover", event.OccursAtUtc(), if fastAboveSlow == Some(true) then "cross-up" else "cross-down");
          return Reaction([Request(timer, false)], Returns);
        }
        return Reaction([], Returns);
      case _ =>
        ReactionToOther(CrossSignal, history, event);
        return Reaction([], Returns);
    }
  }

  /** One call for each event of a sequence, in order, on one object. At every call the object asks for
      what the handler function asks for: over a whole run the two are one handler. */
  method DriveHandler(events: seq<Event>) returns (reactions: seq<Reaction>, crossings: nat)
    ensures |reactions| == |events|
    ensures forall i :: 0 <= i < |events| ==> reactions[i] == SignalHandler(CrossSignal)(events[..i + 1], 0)
    ensures crossings == SignalCount(CrossSignal, ClosesOf(events))
  {
    var handler := new CrossoverHandler();
    reactions := [];
    for i := 0 to |events|
      invariant fresh(handler) && handler.Valid() && handler.closes == ClosesOf(events[..i])
      invariant |reactions| == i
      invariant forall k :: 0 <= k < i ==> reactions[k] == SignalReaction(CrossSignal, events[..k + 1])
    {
      assert events[..i + 1] == events[..i] + [events[i]];
      var reaction := handler.OnEvent(events[i], events[..i]);
      reactions := reactions + [reaction];
    }
    assert events[..|events|] == events;
    crossings := handler.crossings;
  }

  // ----- selecting the bars of a split

  datatype TimeInterval = TimeInterval(startUtc: Instant, endUtc: Instant) {
    predicate Valid() {
      startUtc < endUtc
    }
  }

  /** What a split enforces of its test intervals: there are some, and none is empty. */
  predicate Testable(intervals: seq<TimeInterval>) {
    intervals != [] && forall i :: 0 <= i < |intervals| ==> intervals[i].Valid()
  }

  /** What the partition builder makes of them besides: disjoint and in time order. */
  predicate InTimeOrder(intervals: seq<TimeInterval>) {
    forall i, j :: 0 <= i < j < |intervals| ==> intervals[i].endUtc <= intervals[j].startUtc
  }

  predicate Contains(interval: TimeInterval, bar: Bar) {
    interval.startUtc <= bar.closeTimeUtc < interval.endUtc
  }

  /** The bars closing in `[start, end)`, by scanning. */
  function Within(bars: seq<Bar>, interval: TimeInterval): seq<Bar> {
    if bars == [] then []
    else
      var n := |bars| - 1;
      if Contains(interval, bars[n]) then Within(bars[..n], interval) + [bars[n]] else Within(bars[..n], interval)
  }

  function WithinAny(bars: seq<Bar>, intervals: seq<TimeInterval>): seq<Bar> {
    if intervals == [] then []
    else WithinAny(bars, intervals[..|intervals| - 1]) + Within(bars, intervals[|intervals| - 1])
  }

  /** `bisect_left` over the close times. */
  method BisectLeft(bars: seq<Bar>, instantUtc: Instant) returns (position: nat)
    requires Ascending(bars)
    ensures position <= |bars|
    ensures forall i :: 0 <= i < position ==> bars[i].closeTimeUtc < instantUtc
    ensures forall i :: position <= i < |bars| ==> instantUtc <= bars[i].closeTimeUtc
  {
    var low, high := 0, |bars|;
    while low < high
      invariant 0 <= low <= high <= |bars|
      invariant forall i :: 0 <= i < low ==> bars[i].closeTimeUtc < instantUtc
      invariant forall i :: high <= i < |bars| ==> instantUtc <= bars[i].closeTimeUtc
    {
      var middle := (low + high) / 2;
      if bars[middle].closeTimeUtc < instantUtc {
        low := middle + 1;
      } else {
        high := middle;
      }
    }
    position := low;
  }

  lemma {:induction false} WithinIsSlice(bars: seq<Bar>, interval: TimeInterval, first: nat, last: nat)
    requires first <= last <= |bars|
    requires forall i :: 0 <= i < |bars| ==> (Contains(interval, bars[i]) <==> first <= i < last)
    ensures Within(bars, interval) == bars[first..last]
    decreases |bars|
  {
    if bars != [] {
      var n := |bars| - 1;
      var init := bars[..n];
      if last <= n {
        WithinIsSlice(init, interval, first, last);
        assert init[first..last] == bars[first..last];
      } else if first <= n {
        WithinIsSlice(init, interval, first, n);
        assert init[first..n] + [bars[n]] == bars[first..last];
      } else {
        WithinIsSlice(init, interval, n, n);
      }
    }
  }

  /** The series restricted to a split's test intervals, in whatever order they come and overlapping
      or not: slicing by search is filtering. */
  method BarsInTestIntervals(bars: seq<Bar>, intervals: seq<TimeInterval>) returns (selected: seq<Bar>)
    requires Ascending(bars) && Testable(intervals)
    ensures selected == WithinAny(bars, intervals)
  {
    selected := [];
    for k := 0 to |intervals|
      invariant selected == WithinAny(bars, intervals[..k])
    {
      assert intervals[k].Valid();
      var first := BisectLeft(bars, intervals[k].startUtc);
      var last := BisectLeft(bars, intervals[k].endUtc);
      assert first > 0 ==> bars[first - 1].closeTimeUtc < intervals[k].startUtc;
      WithinIsSlice(bars, intervals[k], first, last);
      selected := selected + bars[first..last];
      assert intervals[..k + 1][..k] == intervals[..k];
    }
    assert intervals[..|intervals|] == intervals;
  }

  lemma {:induction false} WithinKeepsBars(bars: seq<Bar>, interval: TimeInterval)
    ensures forall b :: b in Within(bars, interval) ==> b in bars && Contains(interval, b)
    decreases |bars|
  {
    if bars != [] {
      WithinKeepsBars(bars[..|bars| - 1], interval);
    }
  }

  lemma {:induction false} WithinIsAscending(bars: seq<Bar>, interval: TimeInterval)
    requires Ascending(bars)
    ensures Ascending(Within(bars, interval))
    decreases |bars|
  {
    if bars != [] {
      var n := |bars| - 1;
      var earlier := Within(bars[..n], interval);
      WithinIsAscending(bars[..n], interval);
      WithinKeepsBars(bars[..n], interval);
      forall i | 0 <= i < |earlier| ensures earlier[i].closeTimeUtc < bars[n].closeTimeUtc {
        assert earlier[i] in bars[..n];
      }
    }
  }

  lemma WithinIsInside(bars: seq<Bar>, interval: TimeInterval)
    ensures forall i :: 0 <= i < |Within(bars, interval)| ==> interval.startUtc <= Within(bars, interval)[i].closeTimeUtc < interval.endUtc
  {
    WithinKeepsBars(bars, interval);
    forall i | 0 <= i < |Within(bars, interval)| ensures Contains(interval, Within(bars, interval)[i]) {
      assert Within(bars, interval)[i] in Within(bars, interval);
    }
  }

  lemma AscendingJoin(a: seq<Bar>, b: seq<Bar>, at: Instant)
    requires Ascending(a) && Ascending(b)
    requires AllBefore(a, at) && forall i :: 0 <= i < |b| ==> at <= b[i].closeTimeUtc
    ensures Ascending(a + b)
  {
  }

  lemma PrefixInTimeOrder(intervals: seq<TimeInterval>, n: nat)
    requires 0 < n <= |intervals| && Testable(intervals) && InTimeOrder(intervals)
    ensures Testable(intervals[..n]) && InTimeOrder(intervals[..n])
  {
  }

  ghost predicate AllBefore(bars: seq<Bar>, at: Instant) {
    forall i :: 0 <= i < |bars| ==> bars[i].closeTimeUtc < at
  }

  lemma BeforeLater(bars: seq<Bar>, at: Instant, later: Instant)
    requires AllBefore(bars, at) && at <= later
    ensures AllBefore(bars, later)
  {
  }

  lemma BeforeJoin(a: seq<Bar>, b: seq<Bar>, at: Instant)
    requires AllBefore(a, at) && AllBefore(b, at)
    ensures AllBefore(a + b, at)
  {
  }

  /** From intervals in time order the bars come out in time order. */
  lemma {:induction false} InOrderSelectionAscends(bars: seq<Bar>, intervals: seq<TimeInterval>)
    requires Ascending(bars) && Testable(intervals) && InTimeOrder(intervals)
    ensures Ascending(WithinAny(bars, intervals)) && AllBefore(WithinAny(bars, intervals), intervals[|intervals| - 1].endUtc)
    decreases |intervals|
  {
    var n := |intervals| - 1;
    var latest := Within(bars, intervals[n]);
    WithinIsAscending(bars, intervals[n]);
    WithinIsInside(bars, intervals[n]);
    assert intervals[n].Valid();
    if n == 0 {
      assert WithinAny(bars, intervals) == [] + latest == latest;
    } else {
      PrefixInTimeOrder(intervals, n);
      InOrderSelectionAscends(bars, intervals[..n]);
      var earlier := WithinAny(bars, intervals[..n]);
      assert intervals[n - 1].endUtc <= intervals[n].startUtc;
      BeforeLater(earlier, intervals[n - 1].endUtc, intervals[n].startUtc);
      AscendingJoin(earlier, latest, intervals[n].startUtc);
      BeforeLater(earlier, intervals[n].startUtc, intervals[n].endUtc);
      BeforeJoin(earlier, latest, intervals[n].endUtc);
    }
  }

  // ----- running the paths

  function EarliestStart(intervals: seq<TimeInterval>): Instant
    requires intervals != []
  {
    var n := |intervals| - 1;
    if n == 0 || intervals[n].startUtc < EarliestStart(intervals[..n]) then intervals[n].startUtc else EarliestStart(intervals[..n])
  }

  function LatestEnd(intervals: seq<TimeInterval>): Instant
    requires intervals != []
  {
    var n := |intervals| - 1;
    if n == 0 || intervals[n].endUtc > LatestEnd(intervals[..n]) then intervals[n].endUtc else LatestEnd(intervals[..n])
  }

  /** One path of the workload: its window is the span of its test intervals. */
  function PathConfig(intervals: seq<TimeInterval>, budget: nat): RunConfig
    requires intervals != []
  {
    RunConfig(EarliestStart(intervals), LatestEnd(intervals), budget)
  }

  lemma {:induction false} SelectedInWindow(bars: seq<Bar>, intervals: seq<TimeInterval>, budget: nat)
    requires Testable(intervals) && budget > 0
    ensures PathConfig(intervals, budget).Valid() && InWindow(PathConfig(intervals, budget), WithinAny(bars, intervals))
    decreases |intervals|
  {
    var n := |intervals| - 1;
    assert intervals[n].Valid();
    WithinIsInside(bars, intervals[n]);
    if n > 0 {
      SelectedInWindow(bars, intervals[..n], budget);
    } else {
      assert intervals[..0] == [];
    }
  }

  /** The events of one path: a bar for every selected one, in close order, and a timer for every signal. */
  function PathTotal(signal: Signal, bars: seq<Bar>, intervals: seq<TimeInterval>): nat {
    var selected := WithinAny(bars, intervals);
    |selected| + SignalCount(signal, ClosePrices(ByClose(selected)))
  }

  ghost function PathRun(signal: Signal, bars: seq<Bar>, intervals: seq<TimeInterval>, budget: nat): (Loop, Stop)
    requires intervals != []
  {
    RunLoop(PathConfig(intervals, budget), SignalHandler(signal), Reaction(AsRequests(WithinAny(bars, intervals)), Returns))
  }

  /** The run over one path. */
  lemma PathDispatches(signal: Signal, bars: seq<Bar>, intervals: seq<TimeInterval>, budget: nat)
    requires Testable(intervals) && budget > 0
    ensures var (last, stop) := PathRun(signal, bars, intervals, budget);
      var total := PathTotal(signal, bars, intervals);
      && stop == (if total <= budget then Drained else BudgetExhausted)
      && |last.trace| == Smaller(total, budget)
      && EventsOf(last.trace) <= Expected(signal, ByClose(WithinAny(bars, intervals)), [], [])
  {
    SelectedInWindow(bars, intervals, budget);
    SignalRunDispatches(PathConfig(intervals, budget), signal, WithinAny(bars, intervals));
  }

  const BENCH_SPEC: Engine.SpecRegistration := Engine.SpecRegistration("bench", 1)

  /** Evaluate one path: its bars, its run, and the run's report. */
  method EvaluatePath(bars: seq<Bar>, intervals: seq<TimeInterval>, budget: nat, pathLabel: string, reporter: Engine.ExecutionReporter)
    returns (result: Engine.RunResult)
    requires Ascending(bars) && Testable(intervals) && budget > 0
    modifies reporter
    ensures var total := PathTotal(CrossSignal, bars, intervals);
      var fits := total <= budget;
      && reporter.executions == old(reporter.executions) + [Engine.ExecutionReport(
           BENCH_SPEC.specHash, PathConfig(intervals, budget), pathLabel,
           if fits then Engine.Completed else Engine.ExecutionOutcome.Failed, if fits then None else Some(BudgetExhausted), Smaller(total, budget))]
      && (fits ==> result.RunTrace? && EventsOf(result.entries) == Expected(CrossSignal, ByClose(WithinAny(bars, intervals)), [], []))
      && (!fits ==> result == Engine.Raised(BudgetExhausted))
  {
    var selected := BarsInTestIntervals(bars, intervals);
    PathDispatches(CrossSignal, bars, intervals, budget);
    SelectedInWindow(bars, intervals, budget);
    SignalRunDispatches(PathConfig(intervals, budget), CrossSignal, selected);
    var loop := new Engine.EventLoop(PathConfig(intervals, budget), SignalHandler(CrossSignal), BENCH_SPEC, reporter, pathLabel);
    result := loop.Run(Reaction(AsRequests(selected), Returns));
  }

  // ----- counting without an engine

  /** Replaying closes through the strategy alone, in the order given. */
  method Replay(selected: seq<Bar>) returns (total: nat)
    ensures total == |selected| + SignalCount(CrossSignal, ClosePrices(selected))
  {
    var handler := new CrossoverHandler();
    for i := 0 to |selected|
      invariant fresh(handler) && handler.Valid() && handler.closes == ClosePrices(selected)[..i]
    {
      var _ := handler.Observe(selected[i].closeQuotePrice);
    }
    assert ClosePrices(selected)[..|selected|] == ClosePrices(selected);
    total := |selected| + handler.crossings;
  }

  /** The replays, summed over the paths. */
  function ReplayTotal(signal: Signal, bars: seq<Bar>, splits: seq<seq<TimeInterval>>): nat {
    if splits == [] then 0
    else
      var selected := WithinAny(bars, splits[|splits| - 1]);
      ReplayTotal(signal, bars, splits[..|splits| - 1]) + |selected| + SignalCount(signal, ClosePrices(selected))
  }

  predicate AllTestable(splits: seq<seq<TimeInterval>>) {
    forall k :: 0 <= k < |splits| ==> Testable(splits[k])
  }

  /** The events the runs over the paths dispatch, each within its budget, summed. */
  ghost function DispatchedByRuns(signal: Signal, bars: seq<Bar>, splits: seq<seq<TimeInterval>>, budget: nat): nat
    requires AllTestable(splits)
  {
    if splits == [] then 0
    else
      var n := |splits| - 1;
      assert Testable(splits[n]);
      DispatchedByRuns(signal, bars, splits[..n], budget) + |PathRun(signal, bars, splits[n], budget).0.trace|
  }

  lemma ReplayIsPathTotal(signal: Signal, bars: seq<Bar>, intervals: seq<TimeInterval>)
    requires Ascending(bars) && Testable(intervals) && InTimeOrder(intervals)
    ensures var selected := WithinAny(bars, intervals);
      PathTotal(signal, bars, intervals) == |selected| + SignalCount(signal, ClosePrices(selected))
  {
    InOrderSelectionAscends(bars, intervals);
    AscendingStays(WithinAny(bars, intervals));
  }

  /** Every run has the budget its path needs. */
  predicate Covers(signal: Signal, bars: seq<Bar>, splits: seq<seq<TimeInterval>>, budget: nat) {
    forall k :: 0 <= k < |splits| ==> PathTotal(signal, bars, splits[k]) <= budget
  }

  lemma CoversOneMore(signal: Signal, bars: seq<Bar>, splits: seq<seq<TimeInterval>>, budget: nat)
    requires splits != []
    ensures var n := |splits| - 1;
      Covers(signal, bars, splits, budget) <==> Covers(signal, bars, splits[..n], budget) && PathTotal(signal, bars, splits[n]) <= budget
  {
    var n := |splits| - 1;
    assert splits == splits[..n] + [splits[n]];
  }

  /** The counter never counts fewer events than the runs dispatch, and counts exactly as many if and
      only if the budget of a run covers every path. */
  lemma {:induction false} CounterAgreesIffBudgetCovers(signal: Signal, bars: seq<Bar>, splits: seq<seq<TimeInterval>>, budget: nat)
    requires Ascending(bars) && AllTestable(splits) && budget > 0
    requires forall k :: 0 <= k < |splits| ==> InTimeOrder(splits[k])
    ensures DispatchedByRuns(signal, bars, splits, budget) <= ReplayTotal(signal, bars, splits)
    ensures DispatchedByRuns(signal, bars, splits, budget) == ReplayTotal(signal, bars, splits) <==> Covers(signal, bars, splits, budget)
    decreases |splits|
  {
    if splits != [] {
      var n := |splits| - 1;
      assert Testable(splits[n]) && InTimeOrder(splits[n]);
      CounterAgreesIffBudgetCovers(signal, bars, splits[..n], budget);
      ReplayIsPathTotal(signal, bars, splits[n]);
      PathDispatches(signal, bars, splits[n], budget);
      CoversOneMore(signal, bars, splits, budget);
    }
  }

  /** The counter over all paths, with no engine: the runs' own number exactly when the budget covers
      every path. */
  method DispatchedEventTotal(bars: seq<Bar>, splits: seq<seq<TimeInterval>>, ghost budget: nat) returns (total: nat)
    requires Ascending(bars) && AllTestable(splits) && budget > 0
    ensures total == ReplayTotal(CrossSignal, bars, splits)
    ensures (forall k :: 0 <= k < |splits| ==> InTimeOrder(splits[k])) ==>
              (total == DispatchedByRuns(CrossSignal, bars, splits, budget) <==> Covers(CrossSignal, bars, splits, budget))
  {
    total := 0;
    for k := 0 to |splits|
      invariant total == ReplayTotal(CrossSignal, bars, splits[..k])
    {
      assert Testable(splits[k]);
      var selected := BarsInTestIntervals(bars, splits[k]);
      var replayed := Replay(selected);
      assert splits[..k + 1][..k] == splits[..k];
      total := total + replayed;
    }
    assert splits[..|splits|] == splits;
    if forall k :: 0 <= k < |splits| ==> InTimeOrder(splits[k]) {
      CounterAgreesIffBudgetCovers(CrossSignal, bars, splits, budget);
    }
  }
}
