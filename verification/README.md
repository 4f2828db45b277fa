# A verified model of the trading platform's deterministic core

The platform is an automated trading system. Five parts of it make promises that everything else
rests on, and this project models those parts in Dafny and proves the promises.

* **The event loop** (`Events`, `EventQueue`, `EngineModel`, `Engine`, `EngineTheorems`, `Endings`, `Causality`,
  `Conservation`, `LookAhead`).
  A binary heap in the queue's own list is proved to be a set with one least element; the loop over
  clock, heap and context is proved to compute a mathematical run, for an arbitrary handler; the
  run is proved to be a first-come-first-served line; and the order, conservation, reporting and
  no-look-ahead theorems are stated about every run of every handler. `SignalRun`, `Workload` and
  `WorkloadRule` add the reference client: the rolling-window crossover strategy, its paths, and the
  counter that replays it.
* **The trial ledger** (`TrialLedger`, `TrialLedgerSafety`, `TrialLedgerTotals`, `TrialLedgerAttribution`,
  `TrialLedgerProgress`, `LedgerTriggers`). Transactions
  are interleaved steps: begin, enter a statement (drawing an identity value that is never returned),
  take the advisory lock, write through the trigger, commit or abort. The invariants hold of every
  interleaving, behind whatever ledger the migration finds, down to which search each charge lands in;
  the older predecessor rule is shown to lose a charge, and exactly when it is right.
* **Position accounting** (`Position`, `PositionBasis`, `PositionOpenTime`, `Instrument`). Laws of one fill are lifted to every list
  of fills by a fold that needs only those laws.
* **Canonical encodings** (`Json`, `JsonStyles`, `JsonText`, `Decimals`, `DecimalText`, `Codec`,
  `CodecRoundTrip`, `CodecMeaning`, `CodecMemo`, `Genome`, `GenomeText`). JSON rendering itself is modelled and
  proved injective, and the codec and the genome identities are built on it; the modules named for
  text and meaning say what is written and read, without the functions that write and read it.
* **Append-only history** (`Lifecycle`, `LifecycleChain`, `Genealogy`, `PointInTime`).

A method of the source that updates its object in a loop is a method of a class here, proved equal to
a specification function; the theorems are about that function.

## What the code does against what it says

The model follows the code. Where the two differ:

* `src/fking/backtest/_engine.py:353-357` says that every run that starts is reported exactly once. The
  code reports once unless something that is a `BaseException` and not an `Exception` escapes
  (`_engine.py:373-386`); such a run is not reported at all. `Endings.LastCallDecides` says exactly when,
  as a condition on the last call made into foreign code, `Endings.InterruptedRun` has such a run, and
  `Engine.EventLoop.OrdinaryRunsAreReportedOnce` proves the promise for code that lets nothing else out.
* `_engine.py:9` and `:313` say that events are dispatched in the queue's total order. Each pop is the
  least queued event, but a trace need not be sorted by the key: `EngineTheorems.TraceNeedNotBeSorted`
  has the run, and `EngineTheorems.SortedIffNoJump` the exact condition.
* `_engine.py:244-245` says that nothing on the context can see an event that has not been dispatched. The
  count of events dropped past the window is readable on it and is already set by the initial
  events. `LookAhead.LaterDataChangeADispatch` has two runs that differ only in an event neither
  dispatches and still dispatch different events; `LookAhead.DispatchesAgreeIff` says exactly when that
  is possible, and `Causality.FutureCannotReachThePast` that this count is the one channel.
* `src/fking/evolution/genome.py:162-169` promises one spelling per value. `normalize` first rounds to the
  decimal context of the thread: 38 digits where the platform has set it up, the library's own
  precision elsewhere. `Decimals.CanonicalIff` and `Genome.GenomeTextIff` are exact for all finite decimals,
  all valid genomes and any two contexts, `Genome.LongThresholdsShareIdentity` has two genomes that
  share an identity under any one context, `Decimals.ContextsDisagree` a number that two contexts spell
  differently, and `Genome.PreciseGenomesAreIdentified` is the promise on the numbers it holds for.
* `migrations/versions/0015_evolution_lineage_store.py:416-417` still takes the predecessor by highest `seq`,
  the rule that `0018` replaced for the ledger. `LifecycleChain.OvertakingLogIsRejected` has a log of two
  rows that the trigger writes and the verifier rejects, and `LifecycleChain.VerifiesIffWrittenInSeqOrder`
  says which writers' chains verify.
* The ledger `0018` takes over was written under `0002`'s rule and may already have lost charges.
  `TrialLedgerSafety.NoChargeIsLost` proves that none is lost from then on, and that the count is the sum of
  all charges exactly if it was at the takeover; `TrialLedgerTotals.TotalsAddUpToGlobalCount` likewise.

## Assumptions

* Transactions run at READ COMMITTED: a read made after the lock is granted sees everything committed
  by then. Ledger rows enter through a registration and through the execution trigger only.
* The ledger's digest is the term it was computed from, so it never collides. The lifecycle digest
  and the genome hash are arbitrary functions, the first of a fixed output length; there the
  theorems carry the collision as an explicit alternative.
* `Decimal` arithmetic in positions, instruments and the strategy is exact (`real`).
* The text forms of decimals, instants and identifiers are arbitrary functions that their parsers
  undo. A Dafny `char` is a Unicode scalar value, so text holds no lone surrogates.
* A handler is a function of the events dispatched so far and the dropped count it can read. The
  history grows with every call, so this covers stateful handlers and handlers that draw random
  numbers: one function describes one run. Handlers and the iterable of initial events terminate.

## Model

| member | source | states |
|---|---|---|
| Events.Least | src/fking/backtest/_queue.py:81-82 | a nonempty queue has an event that no queued event precedes by instant, then band, then insertion counter |
| Events.LeastIsUnique | src/fking/backtest/_queue.py:71-82 | insertion counters make the key injective, so there is exactly one least event and every other one is strictly after it |
| EventQueues.RootIsLeast | src/fking/backtest/_queue.py:120 | the root of any heap-ordered array is the unique least event of the set it holds, whatever the layout |
| EventQueues.RiseStep | src/fking/backtest/_queue.py:115 | one upward swap moves the only order violation to the parent and creates no other |
| EventQueues.SinkStep | src/fking/backtest/_queue.py:131 | one downward swap with the smaller child moves every violation one level down |
| EventQueues.TailReplacesRoot | src/fking/backtest/_queue.py:131 | putting the last item over the root drops exactly the root and disturbs the order only below it |
| EventQueues.EventQueue.SiftTowardsRoot | src/fking/backtest/_queue.py:115 | restores heap order from any single violation, keeping exactly the same events |
| EventQueues.EventQueue.SiftFromRoot | src/fking/backtest/_queue.py:131 | restores heap order after the root was replaced, keeping exactly the same events |
| EventQueues.EventQueue.Schedule | src/fking/backtest/_queue.py:102-116 | adds exactly one new event, stamped with its own instant and band and the next counter value, and keeps the heap |
| EventQueues.EventQueue.Peek | src/fking/backtest/_queue.py:118-120 | the least event of the set, or nothing when empty |
| EventQueues.EventQueue.Pop | src/fking/backtest/_queue.py:122-131 | removes and returns exactly the least event of the set; an empty queue is refused unchanged |
| EngineModel.RunKeepsInv | src/fking/backtest/_engine.py:403-437 | every run of every handler ends with dispatched and queued counters partitioning those issued, accepted plus dropped requests accounted for, within budget, drained only when empty, exhausted only at the full budget with events left, and never with the clock asked to go back |
| EngineTheorems.DispatchOrder | src/fking/backtest/_engine.py:421-435 | if i is dispatched before j, i has the smaller key or j was scheduled after i was popped, and a smaller key for j only at the instant of i; instants never decrease and stay in the window |
| EngineTheorems.KindsKeepTheirOrder | src/fking/backtest/_events.py:29-42 | of two events of one instant that were both waiting, market data come before funding, funding before an order's acknowledgement, fill or rejection, these before a timer, a timer before reconciliation, and events of one kind in the order they were scheduled |
| EngineTheorems.DispatchedAtItsInstant | src/fking/backtest/_events.py:45-175 | every event is dispatched at the instant its own kind tells: a bar at its close, never its open |
| EngineTheorems.DrainedTraceIsPermutation | src/fking/backtest/_engine.py:410-437 | a run that drains dispatches every accepted event exactly once, and accepted plus dropped is everything requested |
| Conservation.DispatchesWhatWasAskedFor | src/fking/backtest/_engine.py:274-295 | told from the calls into foreign code alone: a run that drains dispatches every event asked for and due in the window, its end included, as often as it was asked for and nothing else, and the dropped count is the number asked for past the end; a run cut by its budget dispatches part of that |
| EngineTheorems.SortedIffNoJump | src/fking/backtest/_engine.py:421-435 | a trace, however its run ends, is sorted by the whole key if no handler call asked, at the instant in hand, for an event of an earlier band; when the run drains, only then |
| EngineTheorems.TraceNeedNotBeSorted | src/fking/backtest/_engine.py:313 | a timer that asks for a tick at its own instant gives a trace that is not sorted |
| EngineTheorems.LargerBudgetExtends | src/fking/backtest/_engine.py:414-420 | a larger budget changes nothing of a run that did not exhaust the smaller one, and strictly extends the trace of one that did |
| Causality.RunIsFirstComeFirstServed | src/fking/backtest/_engine.py:403-437 | every run equals serving one line in which an event waits behind everything of its instant and band or earlier: a reference definition with no counters and no heap |
| Causality.FutureCannotReachThePast | src/fking/backtest/_engine.py:241-295 | initial events that agree up to t and drop equally many give the same dispatches and the same readings up to t, under any handler |
| Causality.FutureReachesOnlyThroughDroppedCount | src/fking/backtest/_engine.py:269-295 | what any handler is shown up to t is the same for two futures if and only if the window drops equally many of their initial events |
| LookAhead.DispatchesAgreeIff | src/fking/backtest/_engine.py:241-295 | of two sets of initial events that agree up to t, no handler can make the dispatches up to t depend on which it is given, if and only if equally many fall past the window, or nothing is due by t, or the budget is one event |
| LookAhead.ProbeTellsApart | src/fking/backtest/_engine.py:269-295 | one handler dispatches differently up to t whenever the two dropped counts differ |
| LookAhead.LaterDataChangeADispatch | src/fking/backtest/_engine.py:244-272 | two runs that differ only in an event neither dispatches, and dispatch different events before it |
| Engine.SimulationClock.AdvanceTo | src/fking/backtest/_clock.py:46-61 | refuses exactly the earlier instants and then stays; otherwise moves to the instant, equal ones included |
| Engine.RunContext.Schedule | src/fking/backtest/_engine.py:274-295 | refuses exactly events before now, counts those past the window, queues the rest: the objects end in the abstract state after that request |
| Engine.RunContext.Perform | src/fking/backtest/_engine.py:413-414 | a batch of schedule calls leaves the objects in the state of the abstract batch, stopping where it stops |
| Engine.EventLoop.Dispatch | src/fking/backtest/_engine.py:403-437 | the loop over heap, clock and context computes exactly the abstract run: trace, dropped count and how it stopped |
| Engine.EventLoop.Run | src/fking/backtest/_engine.py:343-401 | an unregistered specification dispatches and reports nothing; a started run appends its report, if any, to the reporter, and returns the trace only if dispatch drained |
| Endings.LastCallDecides | src/fking/backtest/_engine.py:373-437 | a run is cut short exactly as its last call into foreign code says, made at the last event dispatched or at the window's start: by a schedule call in the past left to escape, else by the code's own failure, else not at all |
| Endings.OrdinaryCodeNeverEscapes | src/fking/backtest/_engine.py:375-386 | code that lets out nothing but an `Exception` never ends a run unreported |
| Endings.InterruptedRun | src/fking/backtest/_engine.py:373-386 | a run that dispatches an event and ends unreported |
| Engine.EventLoop.ReportIsExact | src/fking/backtest/_engine.py:373-395 | at most one report, legal, of this specification, configuration and path, and none exactly when the last call into foreign code let a bare `BaseException` out; its outcome says whether the queue drained, its failure how the run stopped, its count is the dispatched events, within the budget and equal to it on exhaustion |
| Engine.EventLoop.OrdinaryRunsAreReportedOnce | src/fking/backtest/_engine.py:353-357 | if neither the handler nor the initial iterable lets out anything but an `Exception`, every run makes exactly one report |
| SignalRun.ExpectedLength | tools/bench/_workload.py:362-375 | the expected trace has one event per bar and one per signal |
| SignalRun.IncreasingBarsArePaired | tools/bench/_workload.py:230-243 | of strictly increasing bars each is followed at once by its timer |
| SignalRun.ByCloseKeepsBars | src/fking/backtest/_engine.py:413-414 | handing bars over in any order queues every one of them, by close |
| SignalRun.SignalRunDispatches | tools/bench/_workload.py:293-327 | for any rule over the closes, over any bars in the window in any order the engine dispatches the bars by close and the timers of an instant once its bars are through, completes exactly when the budget covers them, and is otherwise cut at the budget |
| Workload.WindowSlides | tools/bench/_workload.py:209-215 | adding the new close and taking off the one that leaves keeps the total of the last n closes |
| Workload.CrossMultiplied | tools/bench/_workload.py:218-223 | comparing the cross-multiplied totals is comparing the two means |
| Workload.CrossoverHandler.Observe | tools/bench/_workload.py:201-228 | the totals stay the sums of the last 20 and 60 closes, and the result is whether the fast mean has just changed sides of the slow one, with the side it is on |
| Workload.CrossoverHandler.OnEvent | tools/bench/_workload.py:230-243 | the stateful object asks for exactly what the crossover rule over the whole history asks for, on every kind of event |
| Workload.DriveHandler | tools/bench/_workload.py:201-243 | one object called with every event of any sequence asks at each call for what the handler function asks, and ends with the crossings counted |
| WorkloadRule.HandlerAsksIff | tools/bench/_workload.py:201-243 | given a bar the strategy asks for one timer, at that bar's close and named for the side taken, exactly when there are more than 60 closes and three times the sum of the last 20 lies on another side of the sum of the last 60 than one bar before; given anything else it asks for nothing |
| Workload.BisectLeft | tools/bench/_workload.py:281-282 | the position before which all close times are earlier and from which none is |
| Workload.BarsInTestIntervals | tools/bench/_workload.py:269-284 | for any test intervals, ordered or not, overlapping or not, slicing by binary search selects exactly the bars a scan of every interval selects |
| WorkloadRule.PathSpansItsIntervals | tools/bench/_workload.py:307-320 | the window of a path opens with the first of its intervals to start and closes with the last to end |
| Workload.PathDispatches | tools/bench/_workload.py:293-327 | the run over one path dispatches the smaller of its budget and one event per selected bar and per signal |
| Workload.EvaluatePath | tools/bench/_workload.py:293-334 | evaluating a path through the loop makes one report, with the number dispatched and whether the budget covered the path, and returns the expected trace if it did |
| Workload.Replay | tools/bench/_workload.py:370-374 | replaying closes through the strategy alone counts the bars and the crossings |
| Workload.CounterAgreesIffBudgetCovers | tools/bench/_workload.py:362-375 | for splits in time order the replays never count fewer events than the runs' traces hold, and exactly as many if and only if the budget covers every path |
| Workload.DispatchedEventTotal | tools/bench/_workload.py:362-375 | the counter, with no engine, equals the summed lengths of the traces the runs over the paths produce, if and only if the budget covers every path |
| TrialLedger.TailIsMaximal | migrations/versions/0018_trial_ledger_search_context.py:161-162 | the predecessor a rule picks is a row that no row beats |
| TrialLedgerSafety.LargestTotalIsLast | migrations/versions/0018_trial_ledger_search_context.py:128-130 | behind any history, chain or not, the largest running total is the row written last, whatever identity values the rows got |
| TrialLedgerSafety.EveryInterleavingAccounts | migrations/versions/0021_trial_execution_outcome.py:109-175 | under either tail rule, after every interleaving of draws, locks, writes, commits and aborts every charge and execution index is accounted for and only the lock holder has written |
| TrialLedgerSafety.EveryInterleavingIsGood | migrations/versions/0018_trial_ledger_search_context.py:114-179 | under the newer rule what any interleaving added is besides one chain from the tail of the ledger it found, whatever state that ledger was in |
| TrialLedgerSafety.CountGrowsByCharges | migrations/versions/0018_trial_ledger_search_context.py:128-130 | extending any history by a chain from its tail raises the global count by exactly what is charged |
| TrialLedgerSafety.NoChargeIsLost | migrations/versions/0018_trial_ledger_search_context.py:114-179 | in every reachable state the global count has grown by exactly the charges committed, so it is the sum of all charges if and only if it was at the takeover, and a chain stays one chain |
| TrialLedgerSafety.ChargedIsMaxOfDeclaredAndExecuted | migrations/versions/0021_trial_execution_outcome.py:136-173 | a registered specification has been charged max(declared, executed), failed executions like completed ones, an unregistered one nothing |
| TrialLedgerSafety.ExecutionIndicesAreOneToN | migrations/versions/0021_trial_execution_outcome.py:136-138 | the execution indices of a specification are exactly 1..n, in the order recorded |
| TrialLedgerAttribution.EverythingWasAskedFor | migrations/versions/0021_trial_execution_outcome.py:109-175 | in every reachable state every row since the takeover is what some writer asked for, a registration with its charge, text and search or one surplus trial of an execution, and every execution carries the outcome it was reported with |
| TrialLedgerAttribution.SurplusFollowsRegistration | migrations/versions/0021_trial_execution_outcome.py:148-172 | in every reachable state every overflow row charges one trial to the search context and the lineage its specification was registered in, and each specification is registered once |
| TrialLedgerAttribution.PlacesAreChargedWhatTheyOwe | migrations/versions/0018_trial_ledger_search_context.py:287-313 | in every reachable state the total of a search context is the sum, over the specifications registered in it, of max(declared, executed); the same for a lineage within a context |
| TrialLedgerProgress.RegistrationRaisesIff | migrations/versions/0018_trial_ledger_search_context.py:99-176 | a registration raises exactly when it names no search, charges nothing, or is the second of its specification |
| TrialLedgerProgress.ExecutionRaisesIff | migrations/versions/0021_trial_execution_outcome.py:109-175 | an execution raises exactly when it reports no outcome, its specification is not registered, or it overruns a grid registered before there were contexts |
| TrialLedgerProgress.OnlyTheLockHoldsUp | migrations/versions/0018_trial_ledger_search_context.py:130-135 | a transaction that finds the lock free can take it, write and commit, and then exactly what it saw, wrote and inserted is visible; if its statement raises, it is gone, the lock is free and nothing has become visible |
| TrialLedgerProgress.IdentityValuesDrawn | migrations/versions/0018_trial_ledger_search_context.py:119-126 | an identity value is drawn by entering a registration and by writing a surplus trial, by nothing else, and never given back |
| TrialLedgerSafety.SeqRuleIsRightIff | migrations/versions/0002_audit_substrate.py:240-246 | on a chain the older rule continues the right total, and equally the right hash, exactly when no visible row has a higher `seq` than the last one written |
| TrialLedgerSafety.SeqRuleLosesACharge | migrations/versions/0002_audit_substrate.py:227-255 | under the older rule there is an interleaving whose global count is below the sum of the charges |
| TrialLedgerSafety.LockFirstKeepsBothRules | migrations/versions/0018_trial_ledger_search_context.py:130-135 | if every registration draws its identity value under the lock, either rule adds one chain behind a ledger in `seq` order and keeps that order |
| TrialLedgerTotals.LineagesSumToContext | migrations/versions/0018_trial_ledger_search_context.py:287-313 | per-lineage totals sum to their context's total |
| TrialLedgerTotals.TotalsAddUpToGlobalCount | migrations/versions/0018_trial_ledger_search_context.py:287-313 | in every reachable state context totals plus rows older than contexts sum to the global count if and only if that count was the sum of the charges at the takeover |
| LedgerTriggers.Tables.FindTail | migrations/versions/0018_trial_ledger_search_context.py:161-162 | the scan finds the row of the largest total |
| LedgerTriggers.Tables.FindRegistration | migrations/versions/0021_trial_execution_outcome.py:124-127 | the scan finds the registration, never an overflow row |
| LedgerTriggers.Tables.CountExecuted | migrations/versions/0021_trial_execution_outcome.py:136-137 | the scan counts the executions of a specification, failed ones included |
| LedgerTriggers.Tables.InsertRow | migrations/versions/0018_trial_ledger_search_context.py:138-176 | the trigger body appends exactly the accumulated row, and refuses a row without its context unchanged |
| LedgerTriggers.Tables.Register | migrations/versions/0018_trial_ledger_search_context.py:99-176 | a registration adds exactly what the protocol says, or nothing when refused |
| LedgerTriggers.Tables.Reconcile | migrations/versions/0021_trial_execution_outcome.py:109-175 | the execution trigger adds exactly what the protocol says, numbered and charged, or nothing when it raises |
| Positions.BlendedCost | src/fking/domain/position.py:174-181 | the new basis times the new size is the two costs together |
| Positions.FillKeepsPositionLegal | src/fking/domain/position.py:140-241 | exactly a fill of another instrument is refused; any other leaves a legal position, moves quantity and fees by its own, splits its size into closed and opened, flips exactly when it crosses sides and then to its own price, and keeps the open time unless it takes a side, which sets it, or closes, which clears it; a repeat changes nothing |
| Positions.FillMovesMarkedPnl | src/fking/domain/position.py:130-241 | any fill moves realised plus unrealised value at a mark by its signed size times the distance of its price from the mark |
| Positions.PositionIsTheSumOfItsFills | src/fking/domain/position.py:140-241 | over any list of fills with redeliveries, quantity, fees and value at any mark are sums over first deliveries, and the position is the one of the deduplicated list |
| Positions.OrderDoesNotMatter | src/fking/domain/position.py:140-241 | permuting distinct fills changes neither quantity, nor fees, nor value at any mark |
| Positions.RealisedAgreesIff | src/fking/domain/position.py:195-241 | two orders of the same fills realise the same PnL exactly when they end flat or at one basis |
| Positions.RealisedDependsOnOrder | src/fking/domain/position.py:195-241 | there are fills whose order changes realised PnL |
| PositionBasis.OpenedBooks | src/fking/domain/position.py:168-193 | opening or adding grows the size by the fill and blends the basis by size |
| PositionBasis.SplittingAFillChangesNothing | src/fking/domain/position.py:140-241 | a fill and its two parts leave the same quantity, basis, realised PnL, fees and open time, through opening, adding, partial and exact close, and a flip by either part |
| PositionBasis.BasisLiesBetweenOpenings | src/fking/domain/position.py:168-233 | after any fills an open basis lies between the least and greatest price opened at since last flat or flipped, and a flat position has none |
| PositionOpenTime.OpenTimeIsLastTakingOfASide | src/fking/domain/position.py:168-233 | after any fills, redelivered or not, an open position has been open since the fill at which its running quantity last left flat or changed sides, and a flat one carries no open time |
| Instruments.SnapProperties | src/fking/domain/instrument.py:16-25 | snapping lands on the lattice within one step, keeps sign, shrinks or grows magnitude by rounding mode, and fixes exactly the lattice points |
| Instruments.PriceNeverReachesIntoTheBook | src/fking/domain/instrument.py:71-80 | a bid never rounds up and an ask never down, by less than one tick |
| Instruments.QuantityNeverGrows | src/fking/domain/instrument.py:62-69 | snapping a quantity never makes an order larger or turns its side, loses less than one step, and is idempotent |
| Instruments.PositionHasNoDust | src/fking/domain/instrument.py:62-69 | fills on the lot lattice leave the position on it, so flat or at least one step |
| Json.SortedAscends | src/fking/backtest/_config.py:62-71 | sorted keys are strictly ascending in code point order |
| JsonText.BeforeIff | src/fking/backtest/_config.py:70 | keys are ordered by the first code point they differ in, a prefix before what it is a prefix of |
| JsonText.AtomText | src/fking/backtest/_config.py:70 | null, true and false by name, and an integer in decimal digits with its sign and no zero in front |
| JsonText.StringIsQuoted | src/fking/backtest/_config.py:70 | a string is its characters' escapes, one after another, between quotes |
| JsonText.BothLayouts | src/fking/backtest/_config.py:70 | a list is its items between brackets and an object its fields between braces in ascending order of key; packed in the digest text, with a space after every comma and colon in the sort-key text |
| Json.RenderUnique | src/fking/backtest/_config.py:70 | a rendered value followed by anything that cannot continue it is recovered from the text |
| Json.RenderInjective | src/fking/backtest/_config.py:62-71 | two JSON values with one text are one value, for any separators and any prefix-code escape |
| JsonStyles.BothEscapesAreCodes | src/fking/backtest/_config.py:70 | both escape tables, with and without ASCII-only output and its surrogate pairs, are uniquely readable |
| JsonText.UnicodeText | src/fking/backtest/_config.py:70 | in digest text the quote, the backslash and five control characters have short escapes, other control characters four lower-case hexadecimal digits, and every other character stands for itself |
| JsonText.AsciiText | src/fking/domain/codec.py:88-92 | in sort-key text everything else outside printable ASCII is escaped by four lower-case hexadecimal digits |
| JsonText.WideText | src/fking/domain/codec.py:88-92 | in sort-key text a character beyond the basic plane is escaped by the two surrogates that encode it |
| JsonStyles.TextDeterminesValue | src/fking/domain/codec.py:88-92 | the canonical text and the sort-key text each determine the value |
| Decimals.RoundsToNearestEven | src/fking/evolution/genome.py:170 | rounding to a precision lands on the nearest multiple of the unit dropped, the even one of two as near |
| Decimals.StrippedIsNormal | src/fking/evolution/genome.py:170 | stripping trailing zeros keeps value and sign and leaves none |
| Decimals.NormalFormUnique | src/fking/evolution/genome.py:162-173 | two nonzero decimals without trailing zeros and of one value are the same triple |
| Decimals.ReadFixed | src/fking/evolution/genome.py:173 | reading fixed-point text back recovers sign, digits and places |
| DecimalText.RoundsToPrecision | src/fking/evolution/genome.py:170 | rounding to a precision leaves what has no more digits alone, and otherwise gives a multiple of the last digit kept, of the same sign, half a unit away at most, and even if it is that far |
| DecimalText.CanonicalIsSpelt | src/fking/evolution/genome.py:162-173 | the canonical text is a sign, a whole part without leading zeros and, if there is one, a point and a fraction without trailing zeros, zero unsigned, and spells the value rounded to the precision |
| Decimals.CanonicalIff | src/fking/evolution/genome.py:162-173 | all finite decimals, each under its own context: spelt alike exactly when equal after rounding to the context's precision |
| Decimals.CanonicalIdentifiesValue | src/fking/evolution/genome.py:162-173 | within the precision of the contexts the spelling is one-to-one with the value |
| Decimals.CanonicalMergesBeyondPrecision | src/fking/evolution/genome.py:170 | under any precision there are two different numbers with one spelling |
| Decimals.ContextsDisagree | src/fking/platform/numeric.py:47-52 | of any two precisions there is a number they spell differently |
| Decimals.UnsetThreadsDisagree | src/fking/platform/numeric.py:3-8 | a thread without the platform's context spells some number differently from one with it |
| Genome.CollectNodes | src/fking/evolution/genome.py:205-210 | the loop over the children collects exactly the recursive walk |
| Genome.WalkFindsWhatLiesBeneath | src/fking/evolution/genome.py:205-210 | the walk holds the node first, and exactly the nodes that lie beneath it |
| GenomeText.ValidNodeIff | src/fking/evolution/genome.py:251-322 | the trees that pass validation are those of a grammar of two sorts: numbers from features, parameters, finite constants and arithmetic; conditions from comparisons of numbers, conjunctions of two or more conditions, and negation; with no stray field |
| GenomeText.ValidGenomeIff | src/fking/evolution/genome.py:339-373 | a genome can be constructed exactly when its rule is a condition reading only declared features and parameters, it declares a feature, its horizon is positive, and its parameters are named and finite |
| Genome.CollectParameters | src/fking/evolution/genome.py:415-420 | going through the names collects each parameter's canonical text under its name and nothing else |
| Genome.CollectPayload | src/fking/evolution/genome.py:404-434 | the payload is built with the values of the parameters or with their names only |
| GenomeText.NodeIsWritten | src/fking/evolution/genome.py:380-389 | a node is written as an object of its six keys in alphabetical order, each always there |
| GenomeText.GenomeIsWritten | src/fking/evolution/genome.py:404-449 | the two texts hashed are written out key by key: rule, features by name, horizon, parameters with their values or by name alone, and schema version 1 |
| Genome.TreePayloadIff | src/fking/evolution/genome.py:380-389 | two valid trees have one payload exactly when they agree node by node with constants equal after rounding |
| Genome.GenomeTextIff | src/fking/evolution/genome.py:404-444 | two valid genomes, each under its own decimal context, have one `genome_hash` text exactly when tree, features, horizon and parameters agree as rounded values |
| Genome.StructureTextIff | src/fking/evolution/genome.py:404-449 | two valid genomes have one `structure_hash` text exactly when they differ at most in parameter values |
| Genome.PreciseGenomesAreIdentified | src/fking/evolution/genome.py:404-449 | when all numbers fit the precision they are hashed under, both texts identify hypothesis and family exactly, across contexts too |
| Genome.RetuningKeepsFamilyOnly | src/fking/evolution/genome.py:407-409 | moving a parameter never changes the structure text, and leaves the genome text only if rounding undoes the move |
| Genome.LineageIsStructureOrCollision | src/fking/evolution/genome.py:437-459 | under any digest two genomes have one lineage exactly when they are of one structure or their texts collide in the sixteen characters that name it |
| GenomeText.LineageIsNamed | src/fking/evolution/genome.py:452-459 | a lineage is `lin-` and the first sixteen characters of the digest of the structure's text |
| Genome.LongThresholdsShareIdentity | src/fking/evolution/genome.py:162-173 | under any precision, two valid genomes that differ in a threshold's value and share their identity text |
| Codec.SortIgnoresOrder | src/fking/domain/codec.py:88-92 | sorting by text gives one list for every order of the same entries |
| Codec.SetEncodingIgnoresIterationOrder | src/fking/domain/codec.py:88-92 | the encoding of a set is the same for every order its members are visited in |
| CodecRoundTrip.OnlyNoneIsNull | src/fking/domain/codec.py:267-276 | only the absent value encodes to null, so an optional field loses nothing |
| CodecRoundTrip.RoundTrip | src/fking/domain/codec.py:160-373 | every value well typed at an annotation encodes, and decoding at the annotation gives it back: scalars, enums, nested dataclasses, optionals, tuples, mappings, sets |
| CodecRoundTrip.TextIdentifiesValue | src/fking/backtest/_config.py:152-154 | among values of one type, equal canonical texts come from equal values only |
| CodecMeaning.DecodesIff | src/fking/domain/codec.py:199-354 | data decode at an annotation to a value exactly when the value may stand there and the data stand for it, so missing and unexpected keys, unknown members, booleans for integers and nulls where none is allowed are refused |
| CodecMeaning.EncodesIff | src/fking/domain/codec.py:59-191 | a value encodes to some data exactly when those are the data written for it, a set's members each once in an order in which their texts ascend; anything else raises |
| CodecMemo.MemoEncoder.BranchOf | src/fking/domain/codec.py:176-190 | the memo answers like the chain of checks, and only ever holds its answers |
| CodecMemo.MemoEncoder.EncodeValue | src/fking/domain/codec.py:160-191 | whatever was encoded before, the result is the plain encoder's |
| CodecMemo.MemoEncoder.EncodeSequence | src/fking/domain/codec.py:95-96 | encodes item by item to the plain encoding, or raises where it does |
| CodecMemo.MemoEncoder.EncodeEntries | src/fking/domain/codec.py:83-113 | encodes entries in any order to the plain encoding, or raises where it does |
| CodecMemo.MemoEncoder.EncodeSet | src/fking/domain/codec.py:88-92 | encodes members in any order to the plain encoding, or raises where it does |
| CodecMemo.WhoAccepts | src/fking/domain/codec.py:122-146 | enums are the only types two checks of the chain let through |
| CodecMemo.OrderIsRightIffEnumsFirst | src/fking/domain/codec.py:116-136 | of all orders of the checks exactly those with the enum check ahead of the scalar check give every type its encoder; any other takes every enum member for the string or number it also is |
| Lifecycle.RequireIsTheTable | src/fking/evolution/lifecycle.py:248-276 | the named refusals refuse nothing the table allows and allow nothing it refuses |
| Lifecycle.EdgesIff | src/fking/evolution/lifecycle.py:199-276 | an edge is one rung up the ladder, retirement out of anything a strategy can be in, quarantine off any rung it stands on, or quarantine back to backtested; and each named refusal is given exactly where it applies |
| Lifecycle.HistoryIsBounded | src/fking/evolution/lifecycle.py:199-230 | a linked history with q quarantines has at most 7 + 6q events |
| Lifecycle.BoundIsTight | src/fking/evolution/lifecycle.py:199-230 | for every q some history attains the bound |
| Lifecycle.RetiredIsLast | src/fking/evolution/lifecycle.py:261-266 | nothing follows retirement |
| Lifecycle.ChampionWasEarned | src/fking/evolution/lifecycle.py:199-361 | a champion was backtested, validated, papered and challenged in the five events before, since its proposal or last quarantine, each scored entry with a score in [0, 1] and its components, at least one episode, and trial counts that were read |
| Lifecycle.CapitalGrowsByStages | src/fking/evolution/lifecycle.py:166-183 | risk budget grows along exactly two edges, to a quarter for a challenger and all for a champion, and no step goes from none to full |
| Lifecycle.ViewIsDerivedState | migrations/versions/0016_evolution_derived_reads.py:60-82 | the view over the shared log and the state derived from a strategy's own events agree, null being nonexistent |
| LifecycleChain.VerifyChain | migrations/versions/0015_evolution_lineage_store.py:442-481 | checks every row, passes exactly when no row has a fault, and otherwise names the first one and its fault |
| LifecycleChain.PreimageHoldsEverything | migrations/versions/0015_evolution_lineage_store.py:375-401 | the digest is taken over the previous hash, the sequence number in decimal and every field whole at its own offset, and over nothing else |
| LifecycleChain.FirstRowContinuesFromZero | migrations/versions/0015_evolution_lineage_store.py:421 | the first row written carries a zero byte as its previous hash |
| LifecycleChain.AlterationIsNamedIff | migrations/versions/0015_evolution_lineage_store.py:440-481 | a passing log with the fields of one row altered and its hash kept still passes if the row's bytes are the same or collide, and otherwise that row is the one named |
| LifecycleChain.ChangedFieldIsNamed | migrations/versions/0015_evolution_lineage_store.py:440-481 | changing any one field to another of its length makes the verifier name that row, or else exhibits a collision |
| LifecycleChain.MovedBytesGoUnnoticed | migrations/versions/0015_evolution_lineage_store.py:375-401 | bytes moved from the end of one field to the front of the next go unnoticed in every log, because nothing separates the fields |
| LifecycleChain.LastHashFixesHistory | migrations/versions/0015_evolution_lineage_store.py:440-481 | two passing logs of one length and last hash were hashed from the same bytes at every position, or exhibit a collision |
| LifecycleChain.LockFirstLogPasses | migrations/versions/0015_evolution_lineage_store.py:405-433 | every log whose writers drew `seq` under the lock passes |
| LifecycleChain.VerifiesIffWrittenInSeqOrder | migrations/versions/0015_evolution_lineage_store.py:405-481 | a log written by the trigger passes when it was written in `seq` order, and otherwise only if two of its rows share a hash |
| LifecycleChain.OvertakingLogIsRejected | migrations/versions/0015_evolution_lineage_store.py:405-481 | under any digest, two rows written in the reverse of their `seq` order are what the trigger writes, and the verifier names the second link broken |
| Genealogy.Ancestors | migrations/versions/0016_evolution_derived_reads.py:84-109 | the bounded iteration produces exactly the rows of the recursive query |
| Genealogy.AncestorsAreWithinBound | migrations/versions/0016_evolution_derived_reads.py:84-109 | the walk returns exactly the genomes reachable within the bound, each with its shortest parent distance |
| Genealogy.WalkEndsIffAcyclic | migrations/versions/0016_evolution_derived_reads.py:113-136 | the unbounded walk ends exactly when no cycle is reachable, because rows carry their depth |
| Genealogy.Descendants | migrations/versions/0016_evolution_derived_reads.py:113-136 | on an acyclic graph the iteration ends with every row of the recursive query |
| Genealogy.DescentIsConverse | migrations/versions/0016_evolution_derived_reads.py:84-136 | descent in n steps is ancestry in n steps turned round |
| Genealogy.DescendantsAreComplete | migrations/versions/0016_evolution_derived_reads.py:120-136 | an ended walk holds exactly the genomes with this one among their ancestors at any distance, and is closed under children |
| Genealogy.DescendantsAreAtShortestDistance | migrations/versions/0016_evolution_derived_reads.py:113-136 | each descendant is returned once, at the length of the shortest line of descent |
| PointInTime.SortedIsInOrder | migrations/versions/0010_feature_store.py:137 | ordering the selected rows by event and falling availability loses none and ties none |
| PointInTime.FirstsAreNewest | migrations/versions/0010_feature_store.py:125 | keeping the first row of each event keeps exactly the newest revision of each, in event order |
| PointInTime.ReadsLatestKnownRevision | migrations/versions/0010_feature_store.py:93-139 | a row is in the answer exactly when it is of the series, published by `as_of` with that instant included, happened after `as_of` less the lookback, and no row of its event was published later but by `as_of`; one row per event, in event order, never after `as_of`, nor at it where availability must lag |
| PointInTime.ReadsEveryKnownEvent | migrations/versions/0010_feature_store.py:125-137 | every event in the lookback with a row published by `as_of` is answered by a row at least as new |
| PointInTime.ReadsDoNotDependOnTheFuture | migrations/versions/0014_alt_observations.py:100-154 | tables that agree on what was available by `as_of` give the same answer, whatever else they hold and however their rows lie |
| PointInTime.RevisionTakesEffectWhenPublished | migrations/versions/0010_feature_store.py:80-138 | a revision is invisible before it is published; it is returned exactly when it is published by `as_of`, its event is in the lookback, and every other row of its event published by then is older |

## Left out

- Positions.PositionIsTheSumOfItsFills: over exact numbers; rounding of each operation to the 38-digit context is not modelled.
- Positions.FillMovesMarkedPnl: over exact numbers; the blended basis is a quotient, which the code rounds.
- Positions.OrderDoesNotMatter: over exact numbers; rounded bases can make the value at a mark depend on the order in its last digits.
- Positions.RealisedAgreesIff: over exact numbers, for the same reason.
- PositionBasis.SplittingAFillChangesNothing: over exact numbers; blending twice rounds twice in the code.
- PositionBasis.BasisLiesBetweenOpenings: over exact numbers, for the same reason.
- Workload.CrossoverHandler.Observe: over exact numbers; the code rounds a running total that outgrows the context.
- Workload.DispatchedEventTotal: the comparison with the runs is for splits whose test intervals are disjoint and in time order, as the partition builder makes them; for others the replay sees the bars in another order than the engine.
- CodecRoundTrip.RoundTrip: mapping keys are strings, instants are UTC microseconds, and what a constructor does to its arguments beyond accepting or refusing them is not modelled.
- CodecMeaning.DecodesIff: JSON numbers with a fraction or exponent are not modelled; nothing is encoded to one and nothing decodes from one.
- Decimals.CanonicalIff: the exponent limits of the decimal context, which trap, are not modelled.
- LifecycleChain.LastHashFixesHistory: about hashed bytes, not fields, because nothing separates the fields in the digest.
- Lifecycle.HistoryIsBounded: linkage of consecutive events is a hypothesis; the store that enforces it is not part of this model.
- Lifecycle.ChampionWasEarned: event ids, genome hash, instants and scoring version carry no rule here and are left out of the event.
- Genealogy.Descendants: requires that no cycle is reachable, which is exactly when the query ends.
- TrialLedgerSafety.EveryInterleavingIsGood: starts from a ledger as the migration finds it, registrations without context and no executions; statements that a table constraint refuses for its descriptive columns are not modelled.
- Engine.EventLoop.Run: a reporter that itself fails, the text of the traceback and the digests in the trace are not modelled; an event is a value the codec can encode.
- LedgerTriggers.Tables.Register: runs on the rows its transaction sees; the lock and visibility are the protocol's.
- `RunConfig.seed_for` and `derive_seed`: a digest of a label; nothing here depends on it.
- Whitespace in names and reasons is space, tab and line breaks only; Unicode spaces are not modelled.
- Fields of bars, orders, fills and instruments that neither order an event nor enter an account.
- The reference price series, the partition plan, worker processes and their memory budgets.
- The capital posture named beside a state's risk fraction, and the row counts and last `seq` the totals views carry beside their totals.
- Roles, grants, ownership, hypertables, compression, indexes and the append-only guard of the migrations.
- Backup, release, recorder and download tools, source checkers, logging, metrics and wall-clock measurement.
- The strategy store, the risk engine, venues and cost models.
