/** The reference strategy in terms of the closing prices alone, and the span of a path in terms of
    its intervals alone. */
module WorkloadRule {
  import opened EngineModel
  import opened Events
  import opened Options
  import opened SignalRun
  import opened Workload

  /** The closes from one position up to another, added up. */
  function SumOver(closes: seq<real>, first: nat, end: nat): real
    requires first <= end <= |closes|
    decreases end
  {
    if first == end then 0.0 else SumOver(closes, first, end - 1) + closes[end - 1]
  }

  lemma {:induction false} SumIsSumOver(closes: seq<real>, first: nat, end: nat)
    requires first <= end <= |closes|
    ensures Sum(closes[first..end]) == SumOver(closes, first, end)
    decreases end
  {
    if first < end {
      SumIsSumOver(closes, first, end - 1);
      var slice := closes[first..end];
      assert slice[..|slice| - 1] == closes[first..end - 1];
    }
  }

  /** After `n` bars three times the total of the last 20 closes exceeds the total of the last 60:
      the mean of the 20 lies above that of the 60. */
  predicate Above(closes: seq<real>, n: nat)
    requires 60 <= n <= |closes|
  {
    3.0 * SumOver(closes, n - 20, n) > SumOver(closes, n - 60, n)
  }

  lemma AboveIff(closes: seq<real>, n: nat)
    requires 60 <= n <= |closes|
    ensures FastAbove(closes[..n]) <==> Above(closes, n)
  {
    var seen := closes[..n];
    CrossMultiplied(seen);
    assert Last(seen, FAST_WINDOW_BARS) == closes[n - 20..n] && Last(seen, SLOW_WINDOW_BARS) == closes[n - 60..n];
    SumIsSumOver(closes, n - 20, n);
    SumIsSumOver(closes, n - 60, n);
  }

  /** The strategy signals after bar `n` exactly when there are more than 60 closes and the side of
      the fast mean is another than it was one bar before, and says which side it is on now. */
  lemma SignalsIff(closes: seq<real>, n: nat)
    requires n <= |closes|
    ensures CrossSignal(closes[..n]) ==
            if n > 60 && Above(closes, n) && !Above(closes, n - 1) then Some("cross-up")
            else if n > 60 && !Above(closes, n) && Above(closes, n - 1) then Some("cross-down")
            else None
  {
    if n > 60 {
      AboveIff(closes, n);
      AboveIff(closes, n - 1);
      assert closes[..n][..n - 1] == closes[..n - 1];
    }
  }

  /** What the strategy asks for when it is given a bar: a timer at the close of that bar, named for
      the side just taken, if the fast mean has just changed sides, and nothing otherwise; and of an
      event that is no bar it asks nothing. */
  lemma HandlerAsksIff(history: seq<Event>, bar: Bar, other: Event, dropped: nat)
    requires !(other.MarketDataEvent? && other.observation.ClosedBar?)
    ensures var closes := ClosesOf(history) + [bar.closeQuotePrice];
      var n := |closes|;
      SignalHandler(CrossSignal)(history + [MarketDataEvent(ClosedBar(bar))], dropped) == Reaction(
        if n > 60 && Above(closes, n) && !Above(closes, n - 1) then [Request(TimerEvent("bench-crossover", bar.closeTimeUtc, "cross-up"), false)]
        else if n > 60 && !Above(closes, n) && Above(closes, n - 1) then [Request(TimerEvent("bench-crossover", bar.closeTimeUtc, "cross-down"), false)]
        else [], Returns)
    ensures SignalHandler(CrossSignal)(history + [other], dropped) == Reaction([], Returns)
  {
    var closes := ClosesOf(history) + [bar.closeQuotePrice];
    ReactionToBar(CrossSignal, history, bar);
    ReactionToOther(CrossSignal, history, other);
    SignalsIff(closes, |closes|);
    assert closes[..|closes|] == closes;
  }

  lemma {:induction false} FirstToStart(intervals: seq<TimeInterval>) returns (k: nat)
    requires intervals != []
    ensures k < |intervals| && intervals[k].startUtc == EarliestStart(intervals)
    ensures forall i :: 0 <= i < |intervals| ==> intervals[k].startUtc <= intervals[i].startUtc
    decreases |intervals|
  {
    var n := |intervals| - 1;
    k := n;
    if n > 0 {
      var j := FirstToStart(intervals[..n]);
      assert intervals[j] == intervals[..n][j] && forall i :: 0 <= i < n ==> intervals[i] == intervals[..n][i];
      k := if intervals[n].startUtc < intervals[j].startUtc then n else j;
    }
  }

  lemma {:induction false} LastToEnd(intervals: seq<TimeInterval>) returns (k: nat)
    requires intervals != []
    ensures k < |intervals| && intervals[k].endUtc == LatestEnd(intervals)
    ensures forall i :: 0 <= i < |intervals| ==> intervals[i].endUtc <= intervals[k].endUtc
    decreases |intervals|
  {
    var n := |intervals| - 1;
    k := n;
    if n > 0 {
      var j := LastToEnd(intervals[..n]);
      assert intervals[j] == intervals[..n][j] && forall i :: 0 <= i < n ==> intervals[i] == intervals[..n][i];
      k := if intervals[n].endUtc > intervals[j].endUtc then n else j;
    }
  }

  /** The window of a path opens with the first of its intervals to start, closes with the last to
      end, and leaves none of them out. */
  lemma PathSpansItsIntervals(intervals: seq<TimeInterval>, budget: nat)
    requires intervals != []
    ensures var config := PathConfig(intervals, budget);
      && config.eventBudget == budget
      && (forall i :: 0 <= i < |intervals| ==> config.startUtc <= intervals[i].startUtc && intervals[i].endUtc <= config.endUtc)
      && (exists i :: 0 <= i < |intervals| && intervals[i].startUtc == config.startUtc)
      && (exists i :: 0 <= i < |intervals| && intervals[i].endUtc == config.endUtc)
  {
    var first := FirstToStart(intervals);
    var last := LastToEnd(intervals);
  }
}
