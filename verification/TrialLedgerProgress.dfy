/** What raises and what waits: a statement raises only for the causes listed, and nothing but the
    lock ever holds a transaction up. */
module TrialLedgerProgress {
  import opened Options
  import opened TrialLedger

  /** Row `k` is the latest registration of the specification; rows without a kind count as one. */
  predicate RegisteredAt(rows: seq<Row>, spec: SpecHash, k: nat) {
    && k < |rows| && Registers(rows[k], spec)
    && forall j :: k < j < |rows| ==> !Registers(rows[j], spec)
  }

  predicate Registers(row: Row, spec: SpecHash) {
    row.spec == spec && (row.attribution.None? || row.attribution.value.kind == Registration)
  }

  lemma {:induction false} RegistrationIsFound(rows: seq<Row>, spec: SpecHash)
    ensures RegistrationOf(rows, spec).None? <==> forall r :: r in rows ==> !Registers(r, spec)
    ensures RegistrationOf(rows, spec).Some? ==> exists k: nat :: RegisteredAt(rows, spec, k) && rows[k] == RegistrationOf(rows, spec).value
    decreases |rows|
  {
    if rows != [] {
      var n: nat := |rows| - 1;
      assert rows == rows[..n] + [rows[n]];
      RegistrationIsFound(rows[..n], spec);
      if Registers(rows[n], spec) {
        assert RegisteredAt(rows, spec, n);
      } else if RegistrationOf(rows, spec).Some? {
        var k: nat :| RegisteredAt(rows[..n], spec, k) && rows[..n][k] == RegistrationOf(rows, spec).value;
        forall j | k < j < |rows| ensures !Registers(rows[j], spec) {
          assert j < n ==> rows[..n][j] == rows[j];
        }
        assert RegisteredAt(rows, spec, k);
      }
    }
  }

  lemma RegisteredOnce(rows: seq<Row>, spec: SpecHash, j: nat, k: nat)
    requires RegisteredAt(rows, spec, j) && RegisteredAt(rows, spec, k)
    ensures j == k
  {
  }

  /** A registration raises exactly when it names no search, charges nothing, or is the second of its
      specification. */
  lemma RegistrationRaisesIff(rule: TailRule, view: Store, spec: SpecHash, content: string, charged: int,
                              context: Option<(string, string)>, seqNo: nat, overflowSeq: nat)
    ensures Inserted(rule, view, Register(spec, content, charged, context), seqNo, overflowSeq).None? <==>
            context.None? || charged <= 0 || exists r :: r in view.rows && Registers(r, spec)
  {
    RegistrationIsFound(view.rows, spec);
  }

  /** An execution raises exactly when it reports no outcome, its specification is not registered, or
      it overruns a grid registered before there was a search to charge. */
  lemma ExecutionRaisesIff(rule: TailRule, view: Store, spec: SpecHash, detail: string, outcome: Option<Outcome>, seqNo: nat, overflowSeq: nat)
    ensures Inserted(rule, view, Execute(spec, detail, outcome), seqNo, overflowSeq).None? <==>
            || outcome.None?
            || (forall r :: r in view.rows ==> !Registers(r, spec))
            || (exists k: nat :: RegisteredAt(view.rows, spec, k) && view.rows[k].attribution.None? &&
                                 ExecutedOf(view.executions, spec) >= view.rows[k].charged)
  {
    RegistrationIsFound(view.rows, spec);
    var registration := RegistrationOf(view.rows, spec);
    if registration.Some? {
      var k: nat :| RegisteredAt(view.rows, spec, k) && view.rows[k] == registration.value;
      forall j: nat | RegisteredAt(view.rows, spec, j) ensures j == k { RegisteredOnce(view.rows, spec, j, k); }
    }
  }

  /** Three steps in a row, if none is blocked. */
  function ThreeSteps(rule: TailRule, w: World, a: Action, b: Action, c: Action): Option<World> {
    var first := Next(rule, w, a);
    if first.None? then None
    else
      var second := Next(rule, first.value, b);
      if second.None? then None else Next(rule, second.value, c)
  }

  /** Nothing but the lock holds anyone up. A transaction in the middle of a statement that finds the
      lock free, or has it already, can take it, write and commit: what becomes visible is what it
      saw, its own writes, and what its statement adds. If the statement raises, the transaction is
      gone, the lock is free, and nothing has become visible. */
  lemma OnlyTheLockHoldsUp(rule: TailRule, w: World, t: TxId)
    requires t in w.txs && w.txs[t].open.Some? && (w.lock.None? || w.lock == Some(t))
    ensures var (statement, seqNo) := w.txs[t].open.value;
      var added := Inserted(rule, View(w, t), statement, seqNo, w.nextSeq);
      && (added.Some? ==>
           var after := ThreeSteps(rule, w, TakeLock(t), Write(t), Commit(t));
           && after.Some? && after.value.lock.None? && t !in after.value.txs
           && after.value.committed == View(w, t).Plus(added.value))
      && (added.None? ==>
           var locked := Next(rule, w, TakeLock(t));
           && locked.Some? && var after := Next(rule, locked.value, Write(t));
             after.Some? && after.value.lock.None? && t !in after.value.txs && after.value.committed == w.committed)
  {
    var tx := w.txs[t];
    var locked := w.(lock := Some(t));
    assert View(locked, t) == View(w, t);
    var added := Inserted(rule, View(w, t), tx.open.value.0, tx.open.value.1, w.nextSeq);
    if added.Some? {
      assert w.committed.Plus(tx.written.Plus(added.value)) == View(w, t).Plus(added.value);
    }
  }

  /** And whoever has the lock can always give it up. */
  lemma AnyoneCanLetGo(rule: TailRule, w: World, t: TxId)
    requires t in w.txs
    ensures var after := Next(rule, w, Abort(t));
      && after.Some? && after.value.lock != Some(t) && after.value.committed == w.committed && after.value.txs == w.txs - {t}
      && (w.txs[t].open.None? ==> Next(rule, w, Commit(t)).Some? && forall statement :: Next(rule, w, Enter(t, statement)).Some?)
  {
  }

  /** The execution goes beyond the grid its specification was registered with. */
  ghost predicate BeyondGrid(view: Store, statement: Statement) {
    && statement.Execute? && statement.outcome.Some?
    && exists k: nat :: RegisteredAt(view.rows, statement.executedSpec, k) && ExecutedOf(view.executions, statement.executedSpec) >= view.rows[k].charged
  }

  /** An identity value is drawn by entering a registration and by writing a surplus trial, by nothing
      else, and none is ever given back: not by a blocked writer, a raising statement or an abort. */
  lemma IdentityValuesDrawn(rule: TailRule, w: World, a: Action)
    requires Next(rule, w, a).Some?
    ensures var draws := match a
              case Enter(t, statement) => statement.Register?
              case Write(t) => BeyondGrid(View(w, t), w.txs[t].open.value.0)
              case _ => false;
      Next(rule, w, a).value.nextSeq == w.nextSeq + if draws then 1 else 0
  {
    if a.Write? {
      var view, statement := View(w, a.t), w.txs[a.t].open.value.0;
      if statement.Execute? {
        RegistrationIsFound(view.rows, statement.executedSpec);
        forall j: nat, k: nat | RegisteredAt(view.rows, statement.executedSpec, j) && RegisteredAt(view.rows, statement.executedSpec, k) ensures j == k {
          RegisteredOnce(view.rows, statement.executedSpec, j, k);
        }
      }
    }
  }
}
