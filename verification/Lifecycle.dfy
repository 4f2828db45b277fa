/** The lifecycle of a strategy as an allowlist of edges, the events that record it, and what the
    histories those events can form look like. */
module Lifecycle {
  import opened Options
  import opened Sequences

  datatype State = Nonexistent | Proposed | Backtested | Validated | Paper | Challenger | Champion | Quarantined | Retired

  /** `PERMITTED_TRANSITIONS`. */
  function Permitted(from: State): set<State> {
    match from
    case Nonexistent => {Proposed}
    case Proposed => {Backtested, Quarantined, Retired}
    case Backtested => {Validated, Quarantined, Retired}
    case Validated => {Paper, Quarantined, Retired}
    case Paper => {Challenger, Quarantined, Retired}
    case Challenger => {Champion, Quarantined, Retired}
    case Champion => {Quarantined, Retired}
    case Quarantined => {Backtested, Retired}
    case Retired => {}
  }

  datatype Refusal = NothingMoved | RetiredIsTerminal | NonexistentIsNoDestination | NotAnEdge

  /** `require_permitted_transition`, its refusals in their order. */
  function Require(from: State, to: State): Option<Refusal> {
    if from == to then Some(NothingMoved)
    else if from == Retired then Some(RetiredIsTerminal)
    else if to == Nonexistent then Some(NonexistentIsNoDestination)
    else if to !in Permitted(from) then Some(NotAnEdge)
    else None
  }

  /** The named refusals refuse nothing the table would allow. */
  lemma RequireIsTheTable(from: State, to: State)
    ensures Require(from, to).None? <==> to in Permitted(from)
  {
  }

  /** The way up. */
  const LADDER: seq<State> := [Nonexistent, Proposed, Backtested, Validated, Paper, Challenger, Champion]

  predicate IsRung(from: State, to: State) {
    exists i :: 0 <= i < |LADDER| - 1 && LADDER[i] == from && LADDER[i + 1] == to
  }

  /** The edges, without the table: one rung up; out of anything a strategy can be in, retirement; out
      of every rung it can stand on, quarantine; and out of quarantine, back to be backtested. What
      is refused is refused for the first of four reasons that applies. */
  lemma EdgesIff(from: State, to: State)
    ensures Require(from, to).None? <==>
            || IsRung(from, to)
            || (to == Retired && from !in {Nonexistent, Retired})
            || (to == Quarantined && from !in {Nonexistent, Quarantined, Retired})
            || (from == Quarantined && to == Backtested)
    ensures Require(from, to) == Some(NothingMoved) <==> from == to
    ensures Require(from, to) == Some(RetiredIsTerminal) <==> from == Retired && to != Retired
    ensures Require(from, to) == Some(NonexistentIsNoDestination) <==> to == Nonexistent && from !in {Nonexistent, Retired}
  {
    RungsAre(from, to);
  }

  lemma RungsAre(from: State, to: State)
    ensures IsRung(from, to) <==>
            (from, to) in {(Nonexistent, Proposed), (Proposed, Backtested), (Backtested, Validated), (Validated, Paper), (Paper, Challenger), (Challenger, Champion)}
  {
    assert LADDER[0] == Nonexistent && LADDER[1] == Proposed && LADDER[2] == Backtested && LADDER[3] == Validated;
    assert LADDER[4] == Paper && LADDER[5] == Challenger && LADDER[6] == Champion;
  }

  predicate IsScored(state: State) {
    state in {Validated, Paper, Challenger, Champion}
  }

  /** The risk a state may take, as a fraction of a champion's. */
  function RiskBudgetFraction(state: State): real {
    match state
    case Challenger => 0.25
    case Champion => 1.0
    case _ => 0.0
  }

  datatype LifecycleEvent = LifecycleEvent(
    strategyId: string, fromState: State, toState: State, reason: string,
    survivalScore: Option<real>, scoreComponents: map<string, real>,
    independentEpisodeCount: int, forwardIndependentEpisodeCount: int,
    globalTrialIndex: int, familyTrialIndex: int)
  {
    predicate CarriesEvidence() {
      survivalScore.Some? && scoreComponents != map[] && independentEpisodeCount > 0 && globalTrialIndex >= 1
    }

    /** What construction enforces. */
    predicate Valid() {
      && Require(fromState, toState).None?
      && !Blank(reason)
      && independentEpisodeCount >= 0 && forwardIndependentEpisodeCount >= 0
      && 0 <= familyTrialIndex <= globalTrialIndex
      && (survivalScore.Some? ==> 0.0 <= survivalScore.value <= 1.0)
      && (IsScored(toState) ==> CarriesEvidence())
    }
  }

  /** The state an ordered event stream implies. */
  function CurrentState(events: seq<LifecycleEvent>): State {
    if events == [] then Nonexistent else events[|events| - 1].toState
  }

  /** A history: constructed events, each leaving the state the one before entered. The linkage is
      the store's to enforce; neither the event type nor `CurrentState` checks it. */
  ghost predicate History(events: seq<LifecycleEvent>) {
    forall i :: 0 <= i < |events| ==> events[i].Valid() && events[i].fromState == CurrentState(events[..i])
  }

  function Quarantines(events: seq<LifecycleEvent>): nat {
    if events == [] then 0
    else Quarantines(events[..|events| - 1]) + if events[|events| - 1].toState == Quarantined then 1 else 0
  }

  /** How many more events a state allows before retirement, quarantines aside. */
  function Runway(state: State): nat {
    match state
    case Nonexistent => 7
    case Proposed => 6
    case Backtested => 5
    case Validated => 4
    case Paper => 3
    case Challenger => 2
    case Champion => 1
    case Quarantined => 6
    case Retired => 0
  }

  lemma RunwayShrinks(from: State, to: State)
    requires to in Permitted(from)
    ensures Runway(to) + 1 <= Runway(from) + if to == Quarantined then 6 else 0
  {
  }

  lemma Predecessor(events: seq<LifecycleEvent>, i: nat)
    requires History(events) && i < |events|
    ensures events[i].toState in Permitted(events[i].fromState)
    ensures events[i].fromState == if i == 0 then Nonexistent else events[i - 1].toState
    ensures IsScored(events[i].toState) ==> events[i].CarriesEvidence()
  {
    assert events[i].Valid();
    RequireIsTheTable(events[i].fromState, events[i].toState);
    if i > 0 { assert CurrentState(events[..i]) == events[i - 1].toState; }
  }

  lemma PrefixIsHistory(events: seq<LifecycleEvent>, n: nat)
    requires History(events) && n <= |events|
    ensures History(events[..n])
  {
    forall i | 0 <= i < n ensures events[..n][i].Valid() && events[..n][i].fromState == CurrentState(events[..n][..i]) {
      assert events[..n][..i] == events[..i] && events[..n][i] == events[i];
    }
  }

  /** One event uses up at least one step of runway, but for a quarantine, which gives some back. */
  lemma LastEventUsesRunway(events: seq<LifecycleEvent>)
    requires History(events) && events != []
    ensures var init, quarantined := events[..|events| - 1], events[|events| - 1].toState == Quarantined;
      && History(init)
      && Runway(CurrentState(events)) + 1 <= Runway(CurrentState(init)) + (if quarantined then 6 else 0)
      && Quarantines(events) == Quarantines(init) + (if quarantined then 1 else 0)
  {
    var n := |events| - 1;
    PrefixIsHistory(events, n);
    Predecessor(events, n);
    RunwayShrinks(events[n].fromState, events[n].toState);
    assert CurrentState(events[..n]) == events[n].fromState;
  }

  /** A history with `q` quarantines has at most `7 + 6q` events. */
  lemma {:induction false} HistoryIsBounded(events: seq<LifecycleEvent>)
    requires History(events)
    ensures |events| + Runway(CurrentState(events)) <= 7 + 6 * Quarantines(events)
    decreases |events|
  {
    if events != [] {
      LastEventUsesRunway(events);
      HistoryIsBounded(events[..|events| - 1]);
    }
  }

  function Step(from: State, to: State): LifecycleEvent {
    LifecycleEvent("s", from, to, "r", Some(1.0), map["c" := 1.0], 1, 0, 1, 0)
  }

  lemma StepIsValid(from: State, to: State)
    requires to in Permitted(from)
    ensures Step(from, to).Valid()
  {
    RequireIsTheTable(from, to);
    assert "c" in Step(from, to).scoreComponents;
    assert Step(from, to).reason[0] == 'r';
  }

  /** The events that take a strategy along a path of states. */
  function Follow(events: seq<LifecycleEvent>, path: seq<State>): seq<LifecycleEvent>
    decreases |path|
  {
    if path == [] then events else Follow(events + [Step(CurrentState(events), path[0])], path[1..])
  }

  predicate Walkable(from: State, path: seq<State>)
    decreases |path|
  {
    path == [] || (path[0] in Permitted(from) && Walkable(path[0], path[1..]))
  }

  function Count(path: seq<State>): nat {
    if path == [] then 0 else (if path[0] == Quarantined then 1 else 0) + Count(path[1..])
  }

  lemma ExtendsHistory(events: seq<LifecycleEvent>, step: LifecycleEvent)
    requires History(events) && step.Valid() && step.fromState == CurrentState(events)
    ensures var next := events + [step];
      History(next) && CurrentState(next) == step.toState
      && Quarantines(next) == Quarantines(events) + if step.toState == Quarantined then 1 else 0
  {
    var next := events + [step];
    assert next[..|events|] == events;
    forall i | 0 <= i < |next| ensures next[i].Valid() && next[i].fromState == CurrentState(next[..i]) {
      if i < |events| { assert next[..i] == events[..i] && next[i] == events[i]; }
    }
  }

  lemma FollowOnce(events: seq<LifecycleEvent>, path: seq<State>) returns (next: seq<LifecycleEvent>)
    requires History(events) && Walkable(CurrentState(events), path) && path != []
    ensures History(next) && |next| == |events| + 1 && CurrentState(next) == path[0]
    ensures Quarantines(next) == Quarantines(events) + if path[0] == Quarantined then 1 else 0
    ensures Follow(events, path) == Follow(next, path[1..])
  {
    var step := Step(CurrentState(events), path[0]);
    StepIsValid(CurrentState(events), path[0]);
    ExtendsHistory(events, step);
    next := events + [step];
  }

  lemma {:induction false} FollowIsAHistory(events: seq<LifecycleEvent>, path: seq<State>)
    requires History(events) && Walkable(CurrentState(events), path)
    ensures var longer := Follow(events, path);
      && History(longer) && |longer| == |events| + |path|
      && CurrentState(longer) == (if path == [] then CurrentState(events) else path[|path| - 1])
      && Quarantines(longer) == Quarantines(events) + Count(path)
    decreases |path|
  {
    if path != [] {
      var next := FollowOnce(events, path);
      FollowIsAHistory(next, path[1..]);
    }
  }

  const CLIMB: seq<State> := [Backtested, Validated, Paper, Challenger, Champion]

  lemma ClimbWalks(from: State)
    requires from in {Proposed, Quarantined}
    ensures Walkable(from, CLIMB) && Count(CLIMB) == 0 && |CLIMB| == 5
  {
    assert CLIMB[1..] == [Validated, Paper, Challenger, Champion];
    assert CLIMB[1..][1..] == [Paper, Challenger, Champion];
    assert CLIMB[1..][1..][1..] == [Challenger, Champion];
    assert CLIMB[1..][1..][1..][1..] == [Champion];
    assert Walkable(Paper, [Challenger, Champion]) && Count([Challenger, Champion]) == 0;
    assert Walkable(Validated, [Paper, Challenger, Champion]) && Count([Paper, Challenger, Champion]) == 0;
  }

  /** Climbing to champion from a start or out of quarantine adds six events. */
  lemma Climb(events: seq<LifecycleEvent>, start: State) returns (longer: seq<LifecycleEvent>)
    requires History(events) && start in Permitted(CurrentState(events)) && start in {Proposed, Quarantined}
    ensures History(longer) && CurrentState(longer) == Champion && |longer| == |events| + 6
    ensures Quarantines(longer) == Quarantines(events) + if start == Quarantined then 1 else 0
  {
    var path := [start] + CLIMB;
    ClimbWalks(start);
    assert path[1..] == CLIMB;
    FollowIsAHistory(events, path);
    assert path[|path| - 1] == Champion;
    longer := Follow(events, path);
  }

  /** The longest history with `q` quarantines, up to its last champion. */
  lemma {:induction false} LongestToChampion(q: nat) returns (events: seq<LifecycleEvent>)
    ensures History(events) && CurrentState(events) == Champion && Quarantines(events) == q && |events| == 6 + 6 * q
    decreases q
  {
    if q == 0 {
      events := Climb([], Proposed);
    } else {
      var before := LongestToChampion(q - 1);
      events := Climb(before, Quarantined);
    }
  }

  /** The bound is met for every number of quarantines: it cannot be lowered. */
  lemma BoundIsTight(q: nat)
    ensures exists events :: History(events) && Quarantines(events) == q && |events| == 7 + 6 * q
  {
    var events := LongestToChampion(q);
    assert Walkable(Champion, [Retired]) by { assert [Retired][1..] == []; }
    assert Count([Retired]) == 0 by { assert [Retired][1..] == []; }
    FollowIsAHistory(events, [Retired]);
  }

  /** Nothing follows retirement. */
  lemma RetiredIsLast(events: seq<LifecycleEvent>)
    requires History(events)
    ensures forall i :: 0 <= i < |events| - 1 ==> events[i].toState != Retired
  {
    forall i | 0 <= i < |events| - 1 ensures events[i].toState != Retired {
      Predecessor(events, i + 1);
    }
  }

  /** The state below a scored one on the way up. */
  function Below(state: State): State {
    match state
    case Champion => Challenger
    case Challenger => Paper
    case Paper => Validated
    case _ => Backtested
  }

  /** The states on the way up have one way in each, but for the first. */
  lemma OneWayIn(from: State, to: State)
    requires to in Permitted(from)
    ensures IsScored(to) ==> from == Below(to)
    ensures to == Backtested ==> from in {Proposed, Quarantined}
  {
  }

  lemma ScoredFrom(events: seq<LifecycleEvent>, i: nat)
    requires History(events) && i < |events| && IsScored(events[i].toState)
    ensures i > 0 && events[i - 1].toState == Below(events[i].toState)
    ensures events[i].CarriesEvidence()
  {
    Predecessor(events, i);
    OneWayIn(events[i].fromState, events[i].toState);
  }

  lemma BacktestedFrom(events: seq<LifecycleEvent>, i: nat)
    requires History(events) && i < |events| && events[i].toState == Backtested
    ensures i > 0 && events[i - 1].toState in {Proposed, Quarantined}
  {
    Predecessor(events, i);
    OneWayIn(events[i].fromState, events[i].toState);
  }

  /** The state entered at `i` was climbed to one rung at a time, each scored rung on evidence. */
  ghost predicate Climbed(events: seq<LifecycleEvent>, i: nat)
    requires i < |events|
  {
    && i > 0
    && if IsScored(events[i].toState)
       then events[i].CarriesEvidence() && events[i - 1].toState == Below(events[i].toState) && Climbed(events, i - 1)
       else events[i].toState == Backtested && events[i - 1].toState in {Proposed, Quarantined}
  }

  lemma {:induction false} ScoredWasClimbed(events: seq<LifecycleEvent>, i: nat)
    requires History(events) && i < |events| && (IsScored(events[i].toState) || events[i].toState == Backtested)
    ensures Climbed(events, i)
    decreases i
  {
    if events[i].toState == Backtested {
      BacktestedFrom(events, i);
    } else {
      ScoredFrom(events, i);
      ScoredWasClimbed(events, i - 1);
    }
  }

  lemma ClimbedToChampion(events: seq<LifecycleEvent>, i: nat)
    requires i < |events| && Climbed(events, i) && events[i].toState == Champion
    ensures i >= 5
    ensures events[i - 1].toState == Challenger && events[i - 2].toState == Paper && events[i - 3].toState == Validated
    ensures events[i - 4].toState == Backtested && events[i - 5].toState in {Proposed, Quarantined}
    ensures forall k :: i - 3 <= k <= i ==> events[k].CarriesEvidence()
  {
    assert Climbed(events, i - 1);
    assert Climbed(events, i - 2);
    assert Climbed(events, i - 3);
    assert Climbed(events, i - 4);
  }

  /** A champion has just been backtested, validated, papered and challenged, in that order and
      with nothing in between, since it was proposed or last left quarantine; and every one of
      those scored entries carried its evidence. */
  lemma ChampionWasEarned(events: seq<LifecycleEvent>, i: nat)
    requires History(events) && i < |events| && events[i].toState == Champion
    ensures i >= 5
    ensures events[i - 1].toState == Challenger && events[i - 2].toState == Paper && events[i - 3].toState == Validated
    ensures events[i - 4].toState == Backtested && events[i - 5].toState in {Proposed, Quarantined}
    ensures forall k :: i - 3 <= k <= i ==>
              && events[k].survivalScore.Some? && 0.0 <= events[k].survivalScore.value <= 1.0
              && events[k].scoreComponents != map[]
              && events[k].independentEpisodeCount >= 1
              && events[k].globalTrialIndex >= 1 && 0 <= events[k].familyTrialIndex <= events[k].globalTrialIndex
  {
    ScoredWasClimbed(events, i);
    ClimbedToChampion(events, i);
    forall k | i - 3 <= k <= i ensures events[k].Valid() {}
  }

  /** Capital grows along exactly two edges, so no single step goes from none to full: a challenger
      may risk a quarter of what a champion may, and no other state anything. */
  lemma CapitalGrowsByStages(from: State, to: State)
    requires Require(from, to).None?
    ensures 4.0 * RiskBudgetFraction(Challenger) == RiskBudgetFraction(Champion) == 1.0
    ensures RiskBudgetFraction(to) > 0.0 <==> to in {Challenger, Champion}
    ensures RiskBudgetFraction(to) > RiskBudgetFraction(from) <==> (from == Paper && to == Challenger) || (from == Challenger && to == Champion)
    ensures RiskBudgetFraction(from) == 0.0 ==> RiskBudgetFraction(to) < 1.0
  {
  }

  /** The rows of the shared log that belong to one strategy, in log order. */
  function Of(log: seq<LifecycleEvent>, strategyId: string): seq<LifecycleEvent> {
    if log == [] then []
    else Of(log[..|log| - 1], strategyId) + if log[|log| - 1].strategyId == strategyId then [log[|log| - 1]] else []
  }

  /** `strategy_current_state`: the newest row of a strategy in the whole log. */
  function NewestState(log: seq<LifecycleEvent>, strategyId: string): Option<State> {
    if log == [] then None
    else if log[|log| - 1].strategyId == strategyId then Some(log[|log| - 1].toState)
    else NewestState(log[..|log| - 1], strategyId)
  }

  /** The view over the shared log and the state derived from a strategy's own events agree; the
      view has no row exactly where the derivation says nonexistent. */
  lemma {:induction false} ViewIsDerivedState(log: seq<LifecycleEvent>, strategyId: string)
    requires History(Of(log, strategyId))
    ensures NewestState(log, strategyId) ==
            if CurrentState(Of(log, strategyId)) == Nonexistent then None else Some(CurrentState(Of(log, strategyId)))
  {
    NewestIsLastOfOwn(log, strategyId);
    var own := Of(log, strategyId);
    if own != [] { Predecessor(own, |own| - 1); }
  }

  lemma {:induction false} NewestIsLastOfOwn(log: seq<LifecycleEvent>, strategyId: string)
    ensures var own := Of(log, strategyId);
      NewestState(log, strategyId) == if own == [] then None else Some(own[|own| - 1].toState)
    decreases |log|
  {
    if log != [] {
      NewestIsLastOfOwn(log[..|log| - 1], strategyId);
    }
  }
}
