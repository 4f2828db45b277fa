/** What every interleaving keeps under `0018`'s tail rule, what `0002`'s rule needs to keep it,
    and a run in which it does not. */
module TrialLedgerSafety {
  import opened Options
  import opened TrialLedger

  // ----- one chain

  lemma PrefixContinues(total: nat, hash: Hash, rows: seq<Row>, n: nat)
    requires Continues(total, hash, rows) && n <= |rows|
    ensures Continues(total, hash, rows[..n])
  {
    forall i | 0 <= i < n ensures LinkedFrom(total, hash, rows[..n], i) { assert LinkedFrom(total, hash, rows, i); }
  }

  /** A chain's last total is where it started plus everything it charged. */
  lemma {:induction false} ChainTotal(total: nat, hash: Hash, rows: seq<Row>)
    requires Continues(total, hash, rows)
    ensures rows != [] ==> rows[|rows| - 1].cumulative == total + Charges(rows)
    decreases |rows|
  {
    if rows != [] {
      var n := |rows| - 1;
      PrefixContinues(total, hash, rows, n);
      ChainTotal(total, hash, rows[..n]);
      assert LinkedFrom(total, hash, rows, n);
    }
  }

  lemma ExtendsLessOne(rule: TailRule, history: seq<Row>, rows: seq<Row>)
    requires Extends(rule, history, rows) && |rows| > |history|
    ensures var n := |rows| - 1;
      && Extends(rule, history, rows[..n])
      && rows[n].charged >= 1
      && rows[n].cumulative == (if n == |history| then TotalOf(rule, history) else rows[n - 1].cumulative) + rows[n].charged
  {
    var n := |rows| - 1;
    var added := rows[|history|..];
    PrefixContinues(TotalOf(rule, history), HashOf(rule, history), added, |added| - 1);
    assert rows[..n][|history|..] == added[..|added| - 1];
    assert LinkedFrom(TotalOf(rule, history), HashOf(rule, history), added, |added| - 1);
  }

  /** Every charge is positive, so totals only grow: behind any history, chain or not, the largest
      total of all is the row written last, whatever identity values the rows drew. */
  lemma {:induction false} LargestTotalIsLast(history: seq<Row>, rows: seq<Row>)
    requires Extends(ByCumulative, history, rows) && |rows| > |history|
    ensures Tail(ByCumulative, rows) == rows[|rows| - 1]
    decreases |rows|
  {
    var n := |rows| - 1;
    ExtendsLessOne(ByCumulative, history, rows);
    if n > |history| {
      LargestTotalIsLast(history, rows[..n]);
    } else {
      assert rows[..n] == history;
    }
  }

  ghost predicate SeqAscending(rows: seq<Row>) {
    forall i, j :: 0 <= i < j < |rows| ==> rows[i].seqNo < rows[j].seqNo
  }

  lemma HighestSeqIsLast(rows: seq<Row>)
    requires rows != []
    requires forall i :: 0 <= i < |rows| - 1 ==> rows[i].seqNo < rows[|rows| - 1].seqNo
    ensures Tail(BySeq, rows) == rows[|rows| - 1]
  {
    if |rows| > 1 {
      TailIsMaximal(BySeq, rows[..|rows| - 1]);
      var best := Tail(BySeq, rows[..|rows| - 1]);
      assert exists i :: 0 <= i < |rows| - 1 && rows[i] == best;
    }
  }

  /** The rule finds the row written last, once there is one behind the history. */
  ghost predicate FindsLast(rule: TailRule, history: seq<Row>, rows: seq<Row>) {
    |rows| > |history| ==> Tail(rule, rows) == rows[|rows| - 1]
  }

  // ----- one statement

  lemma AppendedRowLinks(rule: TailRule, history: seq<Row>, rows: seq<Row>, row: Row)
    requires Extends(rule, history, rows) && FindsLast(rule, history, rows) && row.charged >= 1
    requires row.attribution.Some? && row == Accumulated(rule, rows, row.seqNo, row.spec, row.content, row.charged, row.attribution.value)
    ensures Extends(rule, history, rows + [row])
  {
    var total, hash, added := TotalOf(rule, history), HashOf(rule, history), rows[|history|..];
    assert (rows + [row])[|history|..] == added + [row];
    assert added == [] ==> rows == history;
    forall i | 0 <= i < |added + [row]| ensures LinkedFrom(total, hash, added + [row], i) {
      if i < |added| { assert LinkedFrom(total, hash, added, i); }
    }
  }

  lemma RegistrationPersists(rows: seq<Row>, row: Row, spec: SpecHash)
    requires RegistrationOf(rows, spec).Some?
    requires IsOverflow(row) || row.spec != spec
    ensures RegistrationOf(rows + [row], spec) == RegistrationOf(rows, spec)
  {
    assert (rows + [row])[..|rows|] == rows;
  }

  lemma {:induction false} RegistrationIsItsOwn(rows: seq<Row>, spec: SpecHash)
    ensures RegistrationOf(rows, spec).Some? ==> RegistrationOf(rows, spec).value in rows && RegistrationOf(rows, spec).value.spec == spec
    decreases |rows|
  {
    if rows != [] {
      RegistrationIsItsOwn(rows[..|rows| - 1], spec);
    }
  }

  lemma RegisterKeepsGood(view: Store, row: Row)
    requires Good(view) && row.charged >= 1
    requires !IsOverflow(row) && RegistrationOf(view.rows, row.spec).None?
    ensures Good(Store(view.rows + [row], view.executions))
  {
    var after := Store(view.rows + [row], view.executions);
    assert after.rows[..|view.rows|] == view.rows;
    forall spec ensures AccountedFor(after, spec) {
      assert AccountedFor(view, spec);
    }
    forall i | 0 <= i < |after.executions| ensures NumberedAt(after, i) {
      assert NumberedAt(view, i);
      RegistrationPersists(view.rows, row, view.executions[i].spec);
    }
  }

  lemma ExecuteKeepsGood(view: Store, rows: seq<Row>, execution: Execution)
    requires Good(view)
    requires RegistrationOf(view.rows, execution.spec).Some?
    requires execution.index == ExecutedOf(view.executions, execution.spec) + 1
    requires execution.charged == (execution.index > RegistrationOf(view.rows, execution.spec).value.charged)
    requires |rows| == if execution.charged then 1 else 0
    requires forall row :: row in rows ==> row.spec == execution.spec && row.charged == 1 && IsOverflow(row)
    ensures Good(Store(view.rows + rows, view.executions + [execution]))
  {
    var after := Store(view.rows + rows, view.executions + [execution]);
    assert after.executions[..|view.executions|] == view.executions;
    if rows == [] {
      assert after.rows == view.rows;
    } else {
      assert rows == [rows[0]] && rows[0] in rows;
      assert after.rows[..|view.rows|] == view.rows;
    }
    forall spec ensures AccountedFor(after, spec) {
      assert AccountedFor(view, spec);
    }
    forall i | 0 <= i < |after.executions| ensures NumberedAt(after, i) {
      if i < |view.executions| {
        assert NumberedAt(view, i);
        assert after.executions[..i + 1] == view.executions[..i + 1];
      } else {
        assert after.executions[..i + 1] == after.executions;
      }
      if rows != [] && i < |view.executions| { RegistrationPersists(view.rows, rows[0], view.executions[i].spec); }
    }
  }

  lemma InsertKeepsGood(rule: TailRule, view: Store, statement: Statement, seqNo: nat, overflowSeq: nat)
    requires Good(view) && Inserted(rule, view, statement, seqNo, overflowSeq).Some?
    ensures Good(view.Plus(Inserted(rule, view, statement, seqNo, overflowSeq).value))
  {
    var added := Inserted(rule, view, statement, seqNo, overflowSeq).value;
    if statement.Register? {
      assert view.executions + [] == view.executions;
      RegisterKeepsGood(view, added.rows[0]);
    } else {
      ExecuteKeepsGood(view, added.rows, added.executions[0]);
    }
  }

  lemma InsertExtends(rule: TailRule, history: seq<Row>, view: Store, statement: Statement, seqNo: nat, overflowSeq: nat)
    requires Extends(rule, history, view.rows) && FindsLast(rule, history, view.rows)
    requires Inserted(rule, view, statement, seqNo, overflowSeq).Some?
    ensures Extends(rule, history, view.rows + Inserted(rule, view, statement, seqNo, overflowSeq).value.rows)
  {
    var rows := Inserted(rule, view, statement, seqNo, overflowSeq).value.rows;
    if rows == [] {
      assert view.rows + rows == view.rows;
    } else {
      assert rows == [rows[0]];
      AppendedRowLinks(rule, history, view.rows, rows[0]);
    }
  }

  // ----- every interleaving

  const NOTHING: Store := Store([], [])

  /** Only the holder of the lock has written anything; what it sees is as good as what is committed. */
  ghost predicate Inv(w: World) {
    && Good(w.committed)
    && (w.lock.Some? ==> w.lock.value in w.txs && Good(View(w, w.lock.value)))
    && (forall t :: t in w.txs && w.lock != Some(t) ==> w.txs[t].written == NOTHING)
  }

  /** Whatever has been written since `history` is one chain from its tail, committed or not. */
  ghost predicate Chained(rule: TailRule, history: seq<Row>, w: World) {
    && Extends(rule, history, w.committed.rows)
    && (w.lock.Some? ==> w.lock.value in w.txs && Extends(rule, history, View(w, w.lock.value).rows))
  }

  lemma NextKeepsInv(rule: TailRule, w: World, a: Action)
    requires Inv(w) && Next(rule, w, a).Some?
    ensures Inv(Next(rule, w, a).value)
  {
    var after := Next(rule, w, a).value;
    assert w.committed.Plus(NOTHING) == w.committed;
    if a.Write? && a.t in after.txs {
      var view, tx := View(w, a.t), w.txs[a.t];
      var added := Inserted(rule, view, tx.open.value.0, tx.open.value.1, w.nextSeq).value;
      InsertKeepsGood(rule, view, tx.open.value.0, tx.open.value.1, w.nextSeq);
      assert View(after, a.t) == view.Plus(added);
    } else if after.lock.Some? && after.lock == w.lock {
      assert View(after, after.lock.value) == View(w, w.lock.value);
    } else if after.lock.Some? {
      assert View(after, after.lock.value) == w.committed.Plus(NOTHING);
    }
  }

  lemma NextKeepsChained(rule: TailRule, history: seq<Row>, w: World, a: Action)
    requires Inv(w) && Chained(rule, history, w) && Next(rule, w, a).Some?
    requires a.Write? && a.t in w.txs ==> FindsLast(rule, history, View(w, a.t).rows)
    ensures Chained(rule, history, Next(rule, w, a).value)
  {
    var after := Next(rule, w, a).value;
    assert w.committed.Plus(NOTHING) == w.committed;
    if a.Write? && a.t in after.txs {
      var view, tx := View(w, a.t), w.txs[a.t];
      var added := Inserted(rule, view, tx.open.value.0, tx.open.value.1, w.nextSeq).value;
      InsertExtends(rule, history, view, tx.open.value.0, tx.open.value.1, w.nextSeq);
      assert View(after, a.t) == view.Plus(added);
    } else if after.lock.Some? && after.lock == w.lock {
      assert View(after, after.lock.value) == View(w, w.lock.value);
    } else if after.lock.Some? {
      assert View(after, after.lock.value) == w.committed.Plus(NOTHING);
    }
  }

  /** A ledger as the migration finds it: registrations without context, each charging at least one
      trial, no two of one specification, and no execution table yet. Its totals and hashes are
      whatever the older rule left: they need not form a chain. */
  ghost predicate Historical(store: Store) {
    && store.executions == []
    && (forall r :: r in store.rows ==> r.attribution.None? && r.charged >= 1)
    && (forall i, j :: 0 <= i < j < |store.rows| ==> store.rows[i].spec != store.rows[j].spec)
  }

  lemma {:induction false} HistoricalIsAccounted(rows: seq<Row>, spec: SpecHash)
    requires Historical(Store(rows, []))
    ensures AccountedFor(Store(rows, []), spec)
    decreases |rows|
  {
    if rows != [] {
      var n := |rows| - 1;
      HistoricalIsAccounted(rows[..n], spec);
      assert rows[n] in rows;
      if rows[n].spec == spec { RegistrationIsItsOwn(rows[..n], spec); }
    }
  }

  ghost predicate Initial(w: World) {
    && Historical(w.committed) && w.lock.None? && w.txs == map[]
    && forall r :: r in w.committed.rows ==> r.seqNo < w.nextSeq
  }

  lemma InitialInv(rule: TailRule, w: World)
    requires Initial(w)
    ensures Inv(w) && Chained(rule, w.committed.rows, w)
  {
    forall spec ensures AccountedFor(w.committed, spec) { HistoricalIsAccounted(w.committed.rows, spec); }
    assert w.committed.rows[|w.committed.rows|..] == [];
  }

  lemma RowsExtend(rule: TailRule, history: seq<Row>, w: World, t: TxId)
    requires Inv(w) && Chained(rule, history, w) && t in w.txs
    ensures Extends(rule, history, View(w, t).rows)
  {
    if w.lock != Some(t) { assert View(w, t) == w.committed; }
  }

  /** Under either rule every interleaving of entering, locking, writing, committing and aborting
      leaves every charge and every execution index accounted for. */
  lemma {:induction false} EveryInterleavingAccounts(rule: TailRule, w: World, actions: seq<Action>)
    requires Initial(w) && Run(rule, w, actions).Some?
    ensures Inv(Run(rule, w, actions).value)
    decreases |actions|
  {
    if actions == [] {
      InitialInv(rule, w);
    } else {
      var n := |actions| - 1;
      EveryInterleavingAccounts(rule, w, actions[..n]);
      NextKeepsInv(rule, Run(rule, w, actions[..n]).value, actions[n]);
    }
  }

  /** Under `0018`'s rule every interleaving also leaves what it added as one chain from the tail of
      the ledger it found, whatever state the older rule had left that ledger in. */
  lemma {:induction false} EveryInterleavingIsGood(w: World, actions: seq<Action>)
    requires Initial(w) && Run(ByCumulative, w, actions).Some?
    ensures var after := Run(ByCumulative, w, actions).value;
      Inv(after) && Chained(ByCumulative, w.committed.rows, after)
    decreases |actions|
  {
    var history := w.committed.rows;
    EveryInterleavingAccounts(ByCumulative, w, actions);
    if actions == [] {
      InitialInv(ByCumulative, w);
    } else {
      var n := |actions| - 1;
      EveryInterleavingIsGood(w, actions[..n]);
      var before := Run(ByCumulative, w, actions[..n]).value;
      var a := actions[n];
      if a.Write? && a.t in before.txs {
        RowsExtend(ByCumulative, history, before, a.t);
        if |View(before, a.t).rows| > |history| { LargestTotalIsLast(history, View(before, a.t).rows); }
      }
      NextKeepsChained(ByCumulative, history, before, a);
    }
  }

  /** `global_trial_count`. */
  function GlobalTrialCount(rows: seq<Row>): nat {
    if rows == [] then 0 else Max(GlobalTrialCount(rows[..|rows| - 1]), rows[|rows| - 1].cumulative)
  }

  lemma {:induction false} GlobalCountIsLargestTotal(rows: seq<Row>)
    ensures GlobalTrialCount(rows) == TotalOf(ByCumulative, rows)
    decreases |rows|
  {
    if rows != [] {
      GlobalCountIsLargestTotal(rows[..|rows| - 1]);
    }
  }

  lemma {:induction false} ChargesAppend(a: seq<Row>, b: seq<Row>)
    ensures Charges(a + b) == Charges(a) + Charges(b)
    decreases |b|
  {
    if b == [] {
      assert a + b == a;
    } else {
      ChargesAppend(a, b[..|b| - 1]);
      assert (a + b)[..|a + b| - 1] == a + b[..|b| - 1];
    }
  }

  /** The count grows by exactly what is charged. */
  lemma CountGrowsByCharges(history: seq<Row>, rows: seq<Row>)
    requires Extends(ByCumulative, history, rows)
    ensures GlobalTrialCount(rows) + Charges(history) == GlobalTrialCount(history) + Charges(rows)
  {
    var added := rows[|history|..];
    assert rows == history + added;
    GlobalCountIsLargestTotal(history);
    GlobalCountIsLargestTotal(rows);
    ChargesAppend(history, added);
    if added == [] {
      assert rows == history;
    } else {
      LargestTotalIsLast(history, rows);
      ChainTotal(TotalOf(ByCumulative, history), HashOf(ByCumulative, history), added);
    }
  }

  lemma TailOfChain(rows: seq<Row>)
    requires Chain(rows) && rows != []
    ensures Tail(ByCumulative, rows) == rows[|rows| - 1]
  {
    assert rows[0..] == rows;
    LargestTotalIsLast([], rows);
  }

  lemma ChainsJoin(total: nat, hash: Hash, history: seq<Row>, added: seq<Row>)
    requires Chain(history) && Continues(total, hash, added)
    requires total == if history == [] then 0 else history[|history| - 1].cumulative
    requires hash == if history == [] then Origin else history[|history| - 1].hash
    ensures Chain(history + added)
  {
    forall i | 0 <= i < |history + added| ensures LinkedFrom(0, Origin, history + added, i) {
      if i < |history| {
        assert LinkedFrom(0, Origin, history, i);
      } else {
        assert LinkedFrom(total, hash, added, i - |history|);
      }
    }
  }

  /** A chain behind a chain is one chain. */
  lemma ExtendedChainIsChain(history: seq<Row>, rows: seq<Row>)
    requires Chain(history) && Extends(ByCumulative, history, rows)
    ensures Chain(rows)
  {
    if history != [] { TailOfChain(history); }
    var added := rows[|history|..];
    assert rows == history + added;
    ChainsJoin(TotalOf(ByCumulative, history), HashOf(ByCumulative, history), history, added);
  }

  /** No interleaving loses a charge: whatever ledger the migration found, the global count grows
      by exactly the charges committed since. It is the sum of all charges if and only if it was
      when the rule took over, and a chain stays one chain. */
  lemma NoChargeIsLost(w: World, actions: seq<Action>)
    requires Initial(w) && Run(ByCumulative, w, actions).Some?
    ensures var before, after := w.committed.rows, Run(ByCumulative, w, actions).value.committed.rows;
      && Extends(ByCumulative, before, after)
      && GlobalTrialCount(after) + Charges(before) == GlobalTrialCount(before) + Charges(after)
      && (GlobalTrialCount(after) == Charges(after) <==> GlobalTrialCount(before) == Charges(before))
      && (Chain(before) ==> Chain(after))
  {
    EveryInterleavingIsGood(w, actions);
    var before, after := w.committed.rows, Run(ByCumulative, w, actions).value.committed.rows;
    CountGrowsByCharges(before, after);
    if Chain(before) { ExtendedChainIsChain(before, after); }
  }

  /** Under either rule a registered specification has been charged max(declared, executed), failed
      executions counting like completed ones; an unregistered one nothing. */
  lemma ChargedIsMaxOfDeclaredAndExecuted(rule: TailRule, w: World, actions: seq<Action>, spec: SpecHash)
    requires Initial(w) && Run(rule, w, actions).Some?
    ensures var store := Run(rule, w, actions).value.committed;
      match RegistrationOf(store.rows, spec)
      case None => ChargedTo(store.rows, spec) == 0 && ExecutedOf(store.executions, spec) == 0
      case Some(r) => ChargedTo(store.rows, spec) == Max(r.charged, ExecutedOf(store.executions, spec))
  {
    EveryInterleavingAccounts(rule, w, actions);
    assert AccountedFor(Run(rule, w, actions).value.committed, spec);
  }

  ghost predicate HasIndex(executions: seq<Execution>, spec: SpecHash, k: nat) {
    exists i :: 0 <= i < |executions| && executions[i].spec == spec && executions[i].index == k
  }

  lemma HasIndexAppend(init: seq<Execution>, e: Execution, spec: SpecHash, k: nat)
    ensures HasIndex(init + [e], spec, k) <==> HasIndex(init, spec, k) || (e.spec == spec && e.index == k)
  {
    var all := init + [e];
    if i :| 0 <= i < |init| && init[i].spec == spec && init[i].index == k {
      assert all[i].spec == spec && all[i].index == k;
    }
    assert all[|init|] == e;
  }

  lemma {:induction false} IndicesAreDense(executions: seq<Execution>, spec: SpecHash, k: nat)
    requires forall i :: 0 <= i < |executions| ==> executions[i].index == ExecutedOf(executions[..i + 1], executions[i].spec)
    ensures HasIndex(executions, spec, k) <==> 1 <= k <= ExecutedOf(executions, spec)
    decreases |executions|
  {
    if executions != [] {
      var n := |executions| - 1;
      var init := executions[..n];
      forall i | 0 <= i < n ensures init[i].index == ExecutedOf(init[..i + 1], init[i].spec) {
        assert init[..i + 1] == executions[..i + 1];
      }
      IndicesAreDense(init, spec, k);
      assert executions[..n + 1] == executions == init + [executions[n]];
      HasIndexAppend(init, executions[n], spec, k);
    }
  }

  /** The execution indices of a specification are exactly 1..n, in the order they were recorded. */
  lemma ExecutionIndicesAreOneToN(rule: TailRule, w: World, actions: seq<Action>, spec: SpecHash, k: nat)
    requires Initial(w) && Run(rule, w, actions).Some?
    ensures var executions := Run(rule, w, actions).value.committed.executions;
      && (HasIndex(executions, spec, k) <==> 1 <= k <= ExecutedOf(executions, spec))
      && (forall i :: 0 <= i < |executions| && executions[i].spec == spec ==> executions[i].index == ExecutedOf(executions[..i + 1], spec))
  {
    EveryInterleavingAccounts(rule, w, actions);
    var store := Run(rule, w, actions).value.committed;
    forall i | 0 <= i < |store.executions| ensures store.executions[i].index == ExecutedOf(store.executions[..i + 1], store.executions[i].spec) {
      assert NumberedAt(store, i);
    }
    IndicesAreDense(store.executions, spec, k);
  }

  // ----- `0002`'s rule

  lemma {:induction false} TotalsIncrease(rows: seq<Row>, i: nat, j: nat)
    requires Chain(rows) && i < j < |rows|
    ensures rows[i].cumulative < rows[j].cumulative
    decreases j
  {
    assert LinkedFrom(0, Origin, rows, j);
    if i < j - 1 {
      TotalsIncrease(rows, i, j - 1);
    }
  }

  /** The highest `seq`, of all-different ones, is at one position. */
  lemma TailBySeq(rows: seq<Row>) returns (k: nat)
    requires rows != [] && forall i, j :: 0 <= i < j < |rows| ==> rows[i].seqNo != rows[j].seqNo
    ensures k < |rows| && Tail(BySeq, rows) == rows[k]
    ensures forall i :: 0 <= i < |rows| && i != k ==> rows[i].seqNo < rows[k].seqNo
  {
    TailIsMaximal(BySeq, rows);
    k :| 0 <= k < |rows| && rows[k] == Tail(BySeq, rows);
    forall i | 0 <= i < |rows| && i != k ensures rows[i].seqNo < rows[k].seqNo {
      assert !Beats(BySeq, rows[i], rows[k]);
    }
  }

  lemma DifferentTotalsDifferentHashes(rows: seq<Row>, i: nat, j: nat)
    requires Chain(rows) && i < |rows| && j < |rows| && rows[i].cumulative != rows[j].cumulative
    ensures rows[i].hash != rows[j].hash
  {
    assert LinkedFrom(0, Origin, rows, i) && LinkedFrom(0, Origin, rows, j);
  }

  /** Where `0002`'s rule is right: on a chain it continues the right total, and the right hash,
      exactly when no row it sees carries a higher `seq` than the row written last. */
  lemma SeqRuleIsRightIff(rows: seq<Row>)
    requires Chain(rows) && rows != []
    requires forall i, j :: 0 <= i < j < |rows| ==> rows[i].seqNo != rows[j].seqNo
    ensures TotalOf(BySeq, rows) == Charges(rows) <==> forall i :: 0 <= i < |rows| ==> rows[i].seqNo <= rows[|rows| - 1].seqNo
    ensures TotalOf(BySeq, rows) == Charges(rows) <==> HashOf(BySeq, rows) == rows[|rows| - 1].hash
  {
    var n := |rows| - 1;
    ChainTotal(0, Origin, rows);
    var k := TailBySeq(rows);
    if k < n {
      TotalsIncrease(rows, k, n);
      DifferentTotalsDifferentHashes(rows, k, n);
    }
  }

  /** A registration's identity value is allocated while its transaction holds the lock. */
  ghost predicate LockFirst(rule: TailRule, w: World, actions: seq<Action>) {
    forall k :: 0 <= k < |actions| && EntersRegistration(actions[k]) ==>
      var before := Run(rule, w, actions[..k]);
      before.Some? ==> before.value.lock == Some(actions[k].t)
  }

  ghost predicate EntersRegistration(a: Action) {
    a.Enter? && a.statement.Register?
  }

  ghost predicate SeqsBelow(rows: seq<Row>, bound: nat) {
    SeqAscending(rows) && forall i :: 0 <= i < |rows| ==> rows[i].seqNo < bound
  }

  /** What the lock-first discipline adds: rows are written in `seq` order. */
  ghost predicate InSeqOrder(w: World) {
    && SeqsBelow(w.committed.rows, w.nextSeq)
    && (w.lock.Some? ==> w.lock.value in w.txs && SeqsBelow(View(w, w.lock.value).rows, w.nextSeq))
    && (forall t :: t in w.txs && w.txs[t].open.Some? && w.txs[t].open.value.0.Register? ==>
          && w.lock == Some(t) && w.txs[t].open.value.1 < w.nextSeq
          && SeqsBelow(View(w, t).rows, w.txs[t].open.value.1))
  }

  lemma WriteStaysInSeqOrder(rule: TailRule, w: World, t: TxId)
    requires InSeqOrder(w) && Next(rule, w, Write(t)).Some?
    ensures InSeqOrder(Next(rule, w, Write(t)).value)
  {
    var after := Next(rule, w, Write(t)).value;
    if t in after.txs {
      var view, tx := View(w, t), w.txs[t];
      var added := Inserted(rule, view, tx.open.value.0, tx.open.value.1, w.nextSeq).value;
      assert View(after, t) == view.Plus(added);
    }
  }

  lemma NextStaysInSeqOrder(rule: TailRule, w: World, a: Action)
    requires Inv(w) && InSeqOrder(w) && Next(rule, w, a).Some?
    requires EntersRegistration(a) ==> w.lock == Some(a.t)
    ensures InSeqOrder(Next(rule, w, a).value)
  {
    if a.Write? {
      WriteStaysInSeqOrder(rule, w, a.t);
    } else {
      var after := Next(rule, w, a).value;
      assert w.committed.Plus(NOTHING) == w.committed;
      if after.lock.Some? {
        assert after.lock == w.lock ==> View(after, after.lock.value) == View(w, after.lock.value);
      }
    }
  }

  lemma SeqOrderFindsLast(rule: TailRule, history: seq<Row>, w: World, t: TxId)
    requires Inv(w) && Chained(rule, history, w) && InSeqOrder(w) && t in w.txs
    ensures FindsLast(rule, history, View(w, t).rows)
  {
    RowsExtend(rule, history, w, t);
    if w.lock != Some(t) { assert View(w, t) == w.committed; }
    var rows := View(w, t).rows;
    if |rows| > |history| {
      match rule
      case BySeq => HighestSeqIsLast(rows);
      case ByCumulative => LargestTotalIsLast(history, rows);
    }
  }

  /** If every writer takes the lock before its registration draws an identity value, either rule
      adds one chain behind a ledger in `seq` order and keeps it in `seq` order, which is the order
      it is verified in. */
  lemma {:induction false} LockFirstKeepsBothRules(rule: TailRule, w: World, actions: seq<Action>)
    requires Initial(w) && SeqAscending(w.committed.rows)
    requires LockFirst(rule, w, actions) && Run(rule, w, actions).Some?
    ensures var after := Run(rule, w, actions).value;
      Inv(after) && InSeqOrder(after) && Chained(rule, w.committed.rows, after) && SeqAscending(after.committed.rows)
    decreases |actions|
  {
    if actions == [] {
      InitialInv(rule, w);
    } else {
      var n := |actions| - 1;
      forall k | 0 <= k < n && EntersRegistration(actions[..n][k])
        ensures var before := Run(rule, w, actions[..n][..k]); before.Some? ==> before.value.lock == Some(actions[k].t)
      {
        assert actions[..n][..k] == actions[..k];
      }
      LockFirstKeepsBothRules(rule, w, actions[..n]);
      var before := Run(rule, w, actions[..n]).value;
      var a := actions[n];
      if a.Write? && a.t in before.txs { SeqOrderFindsLast(rule, w.committed.rows, before, a.t); }
      NextKeepsInv(rule, before, a);
      NextKeepsChained(rule, w.committed.rows, before, a);
      NextStaysInSeqOrder(rule, before, a);
    }
  }

  lemma RunExtends(rule: TailRule, w: World, actions: seq<Action>, a: Action)
    requires Run(rule, w, actions).Some?
    ensures Run(rule, w, actions + [a]) == Next(rule, Run(rule, w, actions).value, a)
  {
    assert (actions + [a])[..|actions|] == actions;
  }

  /** One registration from the lock on: what `t` has drawn is written and committed. */
  lemma LockWriteCommit(w: World, actions: seq<Action>, at: World, t: TxId, row: Row)
    requires Run(BySeq, w, actions) == Some(at)
    requires at.lock.None? && t in at.txs && at.txs[t].written == NOTHING && at.txs[t].open.Some?
    requires Inserted(BySeq, at.committed, at.txs[t].open.value.0, at.txs[t].open.value.1, at.nextSeq) == Some(Store([row], []))
    requires !Overruns(at.committed, at.txs[t].open.value.0)
    ensures Run(BySeq, w, actions + [TakeLock(t)] + [Write(t)] + [Commit(t)]) ==
            Some(World(at.committed.Plus(Store([row], [])), None, at.txs - {t}, at.nextSeq))
  {
    assert at.committed.Plus(NOTHING) == at.committed && NOTHING.Plus(Store([row], [])) == Store([row], []);
    RunExtends(BySeq, w, actions, TakeLock(t));
    var locked := at.(lock := Some(t));
    RunExtends(BySeq, w, actions + [TakeLock(t)], Write(t));
    var wrote := locked.(txs := at.txs[t := Tx(Store([row], []), None)]);
    assert Next(BySeq, locked, Write(t)) == Some(wrote);
    RunExtends(BySeq, w, actions + [TakeLock(t)] + [Write(t)], Commit(t));
    assert wrote.txs - {t} == at.txs - {t};
  }

  function RegisterOne(spec: SpecHash): Statement {
    Register(spec, "", 1, Some(("search", "lineage")))
  }

  function Drew(spec: SpecHash, seqNo: nat): Tx {
    Tx(NOTHING, Some((RegisterOne(spec), seqNo)))
  }

  /** Three transactions that have each entered a registration, in this order. */
  lemma ThreeHaveDrawn(w: World) returns (actions: seq<Action>)
    requires w == World(NOTHING, None, map[], 0)
    ensures Run(BySeq, w, actions) == Some(World(NOTHING, None, map[1 := Drew("a", 0), 2 := Drew("b", 1), 3 := Drew("c", 2)], 3))
  {
    actions := [];
    actions := BeginAndEnter(w, actions, w, 1, "a");
    var one := w.(txs := map[1 := Drew("a", 0)], nextSeq := 1);
    actions := BeginAndEnter(w, actions, one, 2, "b");
    var two := w.(txs := map[1 := Drew("a", 0), 2 := Drew("b", 1)], nextSeq := 2);
    assert one.txs[2 := Drew("b", 1)] == two.txs;
    actions := BeginAndEnter(w, actions, two, 3, "c");
    assert two.txs[3 := Drew("c", 2)] == map[1 := Drew("a", 0), 2 := Drew("b", 1), 3 := Drew("c", 2)];
  }

  lemma BeginAndEnter(w: World, actions: seq<Action>, at: World, t: TxId, spec: SpecHash) returns (longer: seq<Action>)
    requires Run(BySeq, w, actions) == Some(at) && t !in at.txs
    ensures Run(BySeq, w, longer) == Some(at.(txs := at.txs[t := Drew(spec, at.nextSeq)], nextSeq := at.nextSeq + 1))
  {
    RunExtends(BySeq, w, actions, Begin(t));
    RunExtends(BySeq, w, actions + [Begin(t)], Enter(t, RegisterOne(spec)));
    longer := actions + [Begin(t)] + [Enter(t, RegisterOne(spec))];
    var begun := at.txs[t := Tx(NOTHING, None)];
    assert begun[t := Drew(spec, at.nextSeq)] == at.txs[t := Drew(spec, at.nextSeq)];
  }

  const OWN: Attribution := Attribution("search", "lineage", Registration)

  /** The row a registration of one trial becomes behind `rows` under `0002`'s rule. */
  function RowBehind(rows: seq<Row>, spec: SpecHash, seqNo: nat): Row {
    Accumulated(BySeq, rows, seqNo, spec, "", 1, OWN)
  }

  lemma Registers(w: World, actions: seq<Action>, rows: seq<Row>, txs: map<TxId, Tx>, t: TxId, spec: SpecHash, seqNo: nat) returns (longer: seq<Action>)
    requires Run(BySeq, w, actions) == Some(World(Store(rows, []), None, txs, 3))
    requires t in txs && txs[t] == Drew(spec, seqNo) && RegistrationOf(rows, spec).None?
    ensures Run(BySeq, w, longer) == Some(World(Store(rows + [RowBehind(rows, spec, seqNo)], []), None, txs - {t}, 3))
  {
    LockWriteCommit(w, actions, World(Store(rows, []), None, txs, 3), t, RowBehind(rows, spec, seqNo));
    longer := actions + [TakeLock(t)] + [Write(t)] + [Commit(t)];
    assert Store(rows, []).Plus(Store([RowBehind(rows, spec, seqNo)], [])) == Store(rows + [RowBehind(rows, spec, seqNo)], []);
  }

  /** The third row continues from the first, whose `seq` is higher than the second's. */
  lemma ThirdForgetsSecond(b: Row, a: Row, c: Row)
    requires b == RowBehind([], "b", 1) && a == RowBehind([b], "a", 0) && c == RowBehind([b, a], "c", 2)
    ensures RegistrationOf([b], "a").None? && RegistrationOf([b, a], "c").None?
    ensures GlobalTrialCount([b, a, c]) == 2 && Charges([b, a, c]) == 3
  {
    assert [b][..0] == [] && [b, a][..1] == [b] && [b, a, c][..2] == [b, a];
    assert RegistrationOf([b], "a").None? && RegistrationOf([b], "c").None?;
    assert Tail(BySeq, [b]) == b && Tail(BySeq, [b, a]) == b;
    assert b.cumulative == 1 && a.cumulative == 2 && c.cumulative == 2;
    assert GlobalTrialCount([b]) == 1 && GlobalTrialCount([b, a]) == 2;
    assert Charges([b]) == 1 && Charges([b, a]) == 2;
  }

  /** `0002`'s rule loses a charge. Three registrations draw their identity values in one order
      and the first two commit in the other; the third then continues from the higher `seq` and
      forgets the row committed after it. Three charges of one leave a global count of two. */
  lemma SeqRuleLosesACharge()
    ensures exists w: World, actions: seq<Action> ::
              && Initial(w) && Run(BySeq, w, actions).Some?
              && var rows := Run(BySeq, w, actions).value.committed.rows;
                GlobalTrialCount(rows) < Charges(rows)
  {
    var w := World(NOTHING, None, map[], 0);
    var actions := ThreeHaveDrawn(w);
    var txs := map[1 := Drew("a", 0), 2 := Drew("b", 1), 3 := Drew("c", 2)];
    var b := RowBehind([], "b", 1);
    var a := RowBehind([b], "a", 0);
    var c := RowBehind([b, a], "c", 2);
    ThirdForgetsSecond(b, a, c);
    actions := Registers(w, actions, [], txs, 2, "b", 1);
    assert [] + [b] == [b] && [b] + [a] == [b, a] && [b, a] + [c] == [b, a, c];
    actions := Registers(w, actions, [b], txs - {2}, 1, "a", 0);
    actions := Registers(w, actions, [b, a], txs - {2} - {1}, 3, "c", 2);
    assert Run(BySeq, w, actions).value.committed.rows == [b, a, c];
  }
}
