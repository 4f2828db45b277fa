/** The hash chain over lifecycle events: what the trigger writes, what the verifier checks, what
    passing it proves about tampering, and exactly which write orders pass it. */
module LifecycleChain {
  import opened Json
  import opened Options

  type Byte = b: int | 0 <= b < 256
  type Bytes = seq<Byte>

  /** SHA-256, of which only the length of its output is used. */
  type Hash = Bytes -> Bytes

  const DIGEST_LENGTH: nat := 32
  const ZERO: Bytes := [0]

  ghost predicate FixedLength(hash: Hash) {
    forall m :: |hash(m)| == DIGEST_LENGTH
  }

  /** `fields` are the texts the digest appends after the sequence number, with nothing between. */
  datatype Row = Row(seqNo: nat, fields: seq<Bytes>, prevHash: Bytes, rowHash: Bytes)

  function Flatten(fields: seq<Bytes>): Bytes {
    if fields == [] then [] else fields[0] + Flatten(fields[1..])
  }

  /** `seq::text` as bytes. */
  function SeqText(n: nat): Bytes {
    var digits := Digits(n);
    seq(|digits|, i requires 0 <= i < |digits| => 48 + (digits[i] - '0') as int)
  }

  /** The bytes a row's digest is taken over: a plain concatenation. */
  function Preimage(row: Row): Bytes {
    row.prevHash + (SeqText(row.seqNo) + Flatten(row.fields))
  }

  /** Where field `i` begins among the fields. */
  function Offset(fields: seq<Bytes>, i: nat): nat
    requires i <= |fields|
  {
    if i == 0 then 0 else Offset(fields, i - 1) + |fields[i - 1]|
  }

  lemma {:induction false} OffsetOfRest(fields: seq<Bytes>, i: nat)
    requires 0 < i <= |fields|
    ensures Offset(fields, i) == |fields[0]| + Offset(fields[1..], i - 1)
  {
    if i > 1 {
      OffsetOfRest(fields, i - 1);
    }
  }

  /** The concatenation holds every field whole, each at its own offset, and nothing else. */
  lemma {:induction false} FieldIsHeldWhole(fields: seq<Bytes>, i: nat)
    requires i < |fields|
    ensures var held := Flatten(fields);
      |held| == Offset(fields, |fields|) && Offset(fields, i) + |fields[i]| <= |held| && held[Offset(fields, i)..][..|fields[i]|] == fields[i]
    decreases |fields|
  {
    var rest := fields[1..];
    var held, tail := Flatten(fields), Flatten(rest);
    OffsetOfRest(fields, |fields|);
    if rest == [] {
      assert tail == [];
    } else {
      FieldIsHeldWhole(rest, if i == 0 then 0 else i - 1);
    }
    if i == 0 {
      assert held[0..] == held;
    } else {
      OffsetOfRest(fields, i);
      assert held[|fields[0]| + Offset(rest, i - 1)..] == tail[Offset(rest, i - 1)..];
    }
  }

  /** The number a string of ASCII digits spells. */
  function DecimalOf(text: Bytes): nat {
    if text == [] then 0 else 10 * DecimalOf(text[..|text| - 1]) + if text[|text| - 1] >= 48 then text[|text| - 1] - 48 else 0
  }

  lemma {:induction false} DecimalOfDigits(text: Bytes, digits: string)
    requires |text| == |digits| && forall i :: 0 <= i < |text| ==> IsDigit(digits[i]) && text[i] == 48 + (digits[i] - '0') as int
    ensures DecimalOf(text) == Number(digits)
    decreases |text|
  {
    if text != [] {
      DecimalOfDigits(text[..|text| - 1], digits[..|digits| - 1]);
    }
  }

  lemma SeqTextSpells(n: nat)
    ensures DecimalOf(SeqText(n)) == n && SeqText(n) != [] && forall i :: 0 <= i < |SeqText(n)| ==> 48 <= SeqText(n)[i] <= 57
  {
    DecimalOfDigits(SeqText(n), Digits(n));
    NumberOfDigits(n);
  }

  /** What a digest is taken over: the previous hash, the sequence number in decimal, and then every
      field whole, one behind the other. */
  lemma PreimageHoldsEverything(row: Row, i: nat)
    requires i < |row.fields|
    ensures var bytes, text := Preimage(row), SeqText(row.seqNo);
      var start := |row.prevHash| + |text| + Offset(row.fields, i);
      && |bytes| == |row.prevHash| + |text| + Offset(row.fields, |row.fields|)
      && bytes[..|row.prevHash|] == row.prevHash
      && bytes[|row.prevHash|..][..|text|] == text && DecimalOf(text) == row.seqNo
      && start + |row.fields[i]| <= |bytes| && bytes[start..][..|row.fields[i]|] == row.fields[i]
  {
    var text, held := SeqText(row.seqNo), Flatten(row.fields);
    SeqTextSpells(row.seqNo);
    FieldIsHeldWhole(row.fields, i);
    assert Preimage(row)[|row.prevHash|..] == text + held;
    assert Preimage(row)[|row.prevHash| + |text| + Offset(row.fields, i)..] == held[Offset(row.fields, i)..];
  }

  // ----- writing

  function Highest(rows: seq<Row>): Row
    requires rows != []
  {
    var last := rows[|rows| - 1];
    if |rows| == 1 then last
    else
      var best := Highest(rows[..|rows| - 1]);
      if last.seqNo > best.seqNo then last else best
  }

  lemma {:induction false} HighestIsMaximal(rows: seq<Row>)
    requires rows != []
    ensures Highest(rows) in rows && forall r :: r in rows ==> r.seqNo <= Highest(rows).seqNo
    decreases |rows|
  {
    if |rows| > 1 {
      HighestIsMaximal(rows[..|rows| - 1]);
      assert rows == rows[..|rows| - 1] + [rows[|rows| - 1]];
    }
  }

  /** `lifecycle_event_chain`: the row the trigger makes, given the rows it sees under the lock. */
  function Chained(hash: Hash, rows: seq<Row>, seqNo: nat, fields: seq<Bytes>): Row {
    var prevHash := if rows == [] then ZERO else Highest(rows).rowHash;
    Row(seqNo, fields, prevHash, hash(prevHash + (SeqText(seqNo) + Flatten(fields))))
  }

  /** A log in the order its rows were written, each by the trigger. */
  ghost predicate Written(hash: Hash, log: seq<Row>) {
    && (forall i :: 0 <= i < |log| ==> log[i] == Chained(hash, log[..i], log[i].seqNo, log[i].fields))
    && (forall i, j :: 0 <= i < j < |log| ==> log[i].seqNo != log[j].seqNo)
  }

  /** `seq` was drawn under the lock, so it exceeds every `seq` already written. */
  ghost predicate WrittenInSeqOrder(log: seq<Row>) {
    forall i, j :: 0 <= i < j < |log| ==> log[i].seqNo < log[j].seqNo
  }

  /** The first row of all continues from a single zero byte. */
  lemma FirstRowContinuesFromZero(hash: Hash, log: seq<Row>)
    requires Written(hash, log) && log != []
    ensures log[0].prevHash == [0] && log[0].rowHash == hash([0] + (SeqText(log[0].seqNo) + Flatten(log[0].fields)))
  {
    assert log[0] == Chained(hash, log[..0], log[0].seqNo, log[0].fields);
  }

  // ----- verifying

  datatype Fault = ContentMismatch | LinkMismatch

  datatype Verdict = Verdict(checkedRows: nat, firstBroken: Option<(nat, Fault)>)

  /** The fault of the row at `i`, if any; the first row checked has no predecessor to match. */
  function FaultAt(hash: Hash, rows: seq<Row>, i: nat): Option<Fault>
    requires i < |rows|
  {
    if hash(Preimage(rows[i])) != rows[i].rowHash then Some(ContentMismatch)
    else if i > 0 && rows[i].prevHash != rows[i - 1].rowHash then Some(LinkMismatch)
    else None
  }

  /** The row at `i` is the first with a fault. */
  ghost predicate FirstFault(hash: Hash, rows: seq<Row>, i: nat, seqNo: nat, fault: Fault) {
    i < |rows| && rows[i].seqNo == seqNo && FaultAt(hash, rows, i) == Some(fault) && Passes(hash, rows[..i])
  }

  /** `verify_lifecycle_chain` over rows in `seq` order. */
  method VerifyChain(hash: Hash, rows: seq<Row>) returns (verdict: Verdict)
    ensures verdict.checkedRows == |rows|
    ensures verdict.firstBroken.None? <==> Passes(hash, rows)
    ensures verdict.firstBroken.Some? ==>
              exists i :: FirstFault(hash, rows, i, verdict.firstBroken.value.0, verdict.firstBroken.value.1)
  {
    for i := 0 to |rows|
      invariant forall k :: 0 <= k < i ==> FaultAt(hash, rows, k).None?
    {
      var fault := FaultAt(hash, rows, i);
      if fault.Some? {
        forall k | 0 <= k < i ensures FaultAt(hash, rows[..i], k).None? {
          assert FaultAt(hash, rows, k).None?;
        }
        assert FirstFault(hash, rows, i, rows[i].seqNo, fault.value);
        return Verdict(|rows|, Some((rows[i].seqNo, fault.value)));
      }
    }
    verdict := Verdict(|rows|, None);
  }

  ghost predicate Passes(hash: Hash, rows: seq<Row>) {
    forall i :: 0 <= i < |rows| ==> FaultAt(hash, rows, i).None?
  }

  // ----- tampering

  /** The digest gives two different inputs one output. */
  ghost predicate CollidesAt(hash: Hash, a: seq<Row>, b: seq<Row>, i: nat)
    requires i < |a| && i < |b|
  {
    Preimage(a[i]) != Preimage(b[i]) && hash(Preimage(a[i])) == hash(Preimage(b[i]))
  }

  /** The row at `k` with other fields and its hashes kept. */
  function Altered(rows: seq<Row>, k: nat, fields: seq<Bytes>): seq<Row>
    requires k < |rows|
  {
    rows[k := rows[k].(fields := fields)]
  }

  /** Altering the fields of a row of a log that passes goes unnoticed if and only if the bytes under
      its digest come out the same, or the digest collides on them; noticed, it is named. */
  lemma AlterationIsNamedIff(hash: Hash, rows: seq<Row>, k: nat, fields: seq<Bytes>)
    requires Passes(hash, rows) && k < |rows|
    ensures var altered := Altered(rows, k, fields);
      && (Passes(hash, altered) <==> hash(Preimage(altered[k])) == hash(Preimage(rows[k])))
      && (!Passes(hash, altered) ==> FirstFault(hash, altered, k, rows[k].seqNo, ContentMismatch))
  {
    var altered := Altered(rows, k, fields);
    assert FaultAt(hash, rows, k).None?;
    forall i | 0 <= i < |rows| && i != k ensures FaultAt(hash, altered, i).None? {
      assert FaultAt(hash, rows, i).None?;
    }
    forall i | 0 <= i < k ensures FaultAt(hash, altered[..k], i).None? {
      assert FaultAt(hash, altered, i).None?;
    }
    if hash(Preimage(altered[k])) != hash(Preimage(rows[k])) {
      assert FaultAt(hash, altered, k) == Some(ContentMismatch);
    } else {
      assert FaultAt(hash, altered, k).None?;
    }
  }

  lemma OtherFieldOtherBytes(row: Row, i: nat, field: Bytes)
    requires i < |row.fields| && |field| == |row.fields[i]| && field != row.fields[i]
    ensures Preimage(row.(fields := row.fields[i := field])) != Preimage(row)
  {
    var other := row.(fields := row.fields[i := field]);
    PreimageHoldsEverything(row, i);
    PreimageHoldsEverything(other, i);
    SameOffsets(row.fields, other.fields, i);
  }

  lemma {:induction false} SameOffsets(a: seq<Bytes>, b: seq<Bytes>, i: nat)
    requires |a| == |b| && i <= |a| && forall k :: 0 <= k < i ==> |a[k]| == |b[k]|
    ensures Offset(a, i) == Offset(b, i)
  {
    if i > 0 {
      SameOffsets(a, b, i - 1);
    }
  }

  /** Changing any one field to another of its length makes the verifier name that row, or else the
      two rows' bytes are a collision of the digest. */
  lemma ChangedFieldIsNamed(hash: Hash, rows: seq<Row>, k: nat, i: nat, field: Bytes)
    requires Passes(hash, rows) && k < |rows| && i < |rows[k].fields|
    requires |field| == |rows[k].fields[i]| && field != rows[k].fields[i]
    ensures var altered := Altered(rows, k, rows[k].fields[i := field]);
      FirstFault(hash, altered, k, rows[k].seqNo, ContentMismatch) || CollidesAt(hash, altered, rows, k)
  {
    OtherFieldOtherBytes(rows[k], i, field);
    AlterationIsNamedIff(hash, rows, k, rows[k].fields[i := field]);
  }

  lemma FlattenTwo(a: Bytes, b: Bytes)
    ensures Flatten([a, b]) == a + b
  {
    assert [a, b][1..] == [b] && [b][1..] == [];
    assert Flatten([b]) == b + [] == b;
  }

  /** Nothing separates the fields: bytes moved from the end of one to the front of the next go
      unnoticed in every log. */
  lemma MovedBytesGoUnnoticed(hash: Hash, rows: seq<Row>, k: nat, a: Bytes, moved: Bytes, b: Bytes)
    requires Passes(hash, rows) && k < |rows| && rows[k].fields == [a + moved, b]
    ensures Passes(hash, Altered(rows, k, [a, moved + b]))
  {
    FlattenTwo(a + moved, b);
    FlattenTwo(a, moved + b);
    assert (a + moved) + b == a + (moved + b);
    AlterationIsNamedIff(hash, rows, k, [a, moved + b]);
  }

  lemma SamePreimageSamePrev(a: Row, b: Row)
    requires Preimage(a) == Preimage(b) && |a.prevHash| == |b.prevHash|
    ensures a.prevHash == b.prevHash
  {
    assert a.prevHash == Preimage(a)[..|a.prevHash|] && b.prevHash == Preimage(b)[..|b.prevHash|];
  }

  /** Two logs of one length that both pass and end in the same row hash were hashed from the same
      bytes at every position, or exhibit a collision of the digest: a history cannot be rewritten
      behind its last hash. It says nothing beyond the bytes, because nothing separates the fields. */
  lemma {:induction false} LastHashFixesHistory(hash: Hash, a: seq<Row>, b: seq<Row>)
    requires FixedLength(hash) && Passes(hash, a) && Passes(hash, b) && |a| == |b| > 0
    requires a[|a| - 1].rowHash == b[|b| - 1].rowHash
    ensures (forall i :: 0 <= i < |a| ==> Preimage(a[i]) == Preimage(b[i])) || exists i :: 0 <= i < |a| && CollidesAt(hash, a, b, i)
    decreases |a|
  {
    var n := |a| - 1;
    assert FaultAt(hash, a, n).None? && FaultAt(hash, b, n).None?;
    if Preimage(a[n]) != Preimage(b[n]) {
      assert CollidesAt(hash, a, b, n);
    } else if n > 0 {
      assert FaultAt(hash, a, n - 1).None? && FaultAt(hash, b, n - 1).None?;
      SamePreimageSamePrev(a[n], b[n]);
      PrefixPasses(hash, a, n);
      PrefixPasses(hash, b, n);
      LastHashFixesHistory(hash, a[..n], b[..n]);
      if i :| 0 <= i < n && CollidesAt(hash, a[..n], b[..n], i) {
        assert CollidesAt(hash, a, b, i);
      } else {
        forall i | 0 <= i < n ensures Preimage(a[i]) == Preimage(b[i]) {
          assert a[..n][i] == a[i] && b[..n][i] == b[i];
        }
      }
    }
  }

  lemma PrefixPasses(hash: Hash, rows: seq<Row>, n: nat)
    requires Passes(hash, rows) && n <= |rows|
    ensures Passes(hash, rows[..n])
  {
    forall i | 0 <= i < n ensures FaultAt(hash, rows[..n], i).None? {
      assert FaultAt(hash, rows, i).None?;
    }
  }

  // ----- which write orders verify

  /** The rows of a log in the verifier's order. */
  ghost predicate InSeqOrder(rows: seq<Row>, log: seq<Row>) {
    && (forall i, j :: 0 <= i < j < |rows| ==> rows[i].seqNo < rows[j].seqNo)
    && (forall r :: r in rows <==> r in log)
  }

  lemma {:induction false} AscendingHighestIsLast(log: seq<Row>)
    requires WrittenInSeqOrder(log) && log != []
    ensures Highest(log) == log[|log| - 1]
    decreases |log|
  {
    if |log| > 1 {
      AscendingHighestIsLast(log[..|log| - 1]);
    }
  }

  lemma AscendingPrefix(log: seq<Row>, n: nat)
    requires WrittenInSeqOrder(log) && n <= |log|
    ensures WrittenInSeqOrder(log[..n])
  {
  }

  lemma LockFirstRowPasses(hash: Hash, log: seq<Row>, i: nat)
    requires Written(hash, log) && WrittenInSeqOrder(log) && i < |log|
    ensures FaultAt(hash, log, i).None?
  {
    var before := log[..i];
    assert log[i] == Chained(hash, before, log[i].seqNo, log[i].fields);
    if i > 0 {
      AscendingPrefix(log, i);
      AscendingHighestIsLast(before);
      assert before[i - 1] == log[i - 1];
    }
  }

  /** A log whose writers drew `seq` under the lock passes the verifier. */
  lemma LockFirstLogPasses(hash: Hash, log: seq<Row>)
    requires Written(hash, log) && WrittenInSeqOrder(log)
    ensures Passes(hash, log)
  {
    forall i | 0 <= i < |log| ensures FaultAt(hash, log, i).None? {
      LockFirstRowPasses(hash, log, i);
    }
  }

  lemma LastIsHighest(rows: seq<Row>, r: Row)
    requires WrittenInSeqOrder(rows) && r in rows
    ensures r.seqNo <= rows[|rows| - 1].seqNo
    ensures r in rows[..|rows| - 1] <==> r.seqNo < rows[|rows| - 1].seqNo
  {
    var n := |rows| - 1;
    assert rows == rows[..n] + [rows[n]];
    var k :| 0 <= k < |rows| && rows[k] == r;
  }

  lemma SameSeqSameRow(rows: seq<Row>, a: Row, b: Row)
    requires WrittenInSeqOrder(rows) && a in rows && b in rows && a.seqNo == b.seqNo
    ensures a == b
  {
    var i :| 0 <= i < |rows| && rows[i] == a;
    var j :| 0 <= j < |rows| && rows[j] == b;
  }

  lemma {:induction false} SameAscendingRows(rows: seq<Row>, log: seq<Row>)
    requires InSeqOrder(rows, log) && WrittenInSeqOrder(log)
    ensures rows == log
    decreases |log|
  {
    assert rows != [] ==> rows[0] in log;
    if log != [] {
      var n := |log| - 1;
      assert log[n] in rows;
      var m := |rows| - 1;
      assert rows[m] in log;
      LastIsHighest(rows, log[n]);
      LastIsHighest(log, rows[m]);
      SameSeqSameRow(log, log[n], rows[m]);
      forall r ensures r in rows[..m] <==> r in log[..n] {
        if r in rows { LastIsHighest(rows, r); }
        if r in log { LastIsHighest(log, r); }
      }
      SameAscendingRows(rows[..m], log[..n]);
    }
  }

  /** Some row was written after a row of higher `seq`. */
  ghost predicate Overtaken(log: seq<Row>, j: nat, k: nat) {
    j < k < |log| && log[k].seqNo < log[j].seqNo
  }

  ghost predicate SharesHash(log: seq<Row>) {
    exists a, b :: a in log && b in log && a != b && a.rowHash == b.rowHash
  }

  /** No row continues from a row that was overtaken: the trigger that wrote it saw a higher `seq`. */
  lemma OvertakenIsNotPredecessor(hash: Hash, log: seq<Row>, j: nat, k: nat, s: nat)
    requires Written(hash, log) && Overtaken(log, j, k) && s < |log| && FixedLength(hash)
    ensures log[s].prevHash == log[k].rowHash ==> SharesHash(log)
  {
    assert log[s] == Chained(hash, log[..s], log[s].seqNo, log[s].fields);
    assert log[k] == Chained(hash, log[..k], log[k].seqNo, log[k].fields);
    if s > 0 {
      HighestIsMaximal(log[..s]);
      var at :| 0 <= at < s && log[at] == Highest(log[..s]);
      assert at == k ==> log[j] in log[..s] by {
        if at == k { assert log[..s][j] == log[j]; }
      }
      assert log[at] in log && log[k] in log && log[at] != log[k];
    }
  }

  lemma RowAfterIsUnlinked(hash: Hash, log: seq<Row>, rows: seq<Row>, j: nat, k: nat, p: nat)
    requires FixedLength(hash) && Written(hash, log) && InSeqOrder(rows, log) && Overtaken(log, j, k)
    requires p + 1 < |rows| && rows[p] == log[k]
    ensures FaultAt(hash, rows, p + 1).None? ==> SharesHash(log)
  {
    assert rows[p + 1] in log;
    var s :| 0 <= s < |log| && log[s] == rows[p + 1];
    OvertakenIsNotPredecessor(hash, log, j, k, s);
  }

  lemma NotTheLastRow(rows: seq<Row>, lower: Row, higher: Row) returns (p: nat)
    requires WrittenInSeqOrder(rows) && lower in rows && higher in rows && lower.seqNo < higher.seqNo
    ensures p + 1 < |rows| && rows[p] == lower
  {
    p :| 0 <= p < |rows| && rows[p] == lower;
    var q :| 0 <= q < |rows| && rows[q] == higher;
  }

  lemma OvertakenBreaksLink(hash: Hash, log: seq<Row>, rows: seq<Row>, j: nat, k: nat)
    requires FixedLength(hash) && Written(hash, log) && InSeqOrder(rows, log) && Overtaken(log, j, k)
    ensures Passes(hash, rows) ==> SharesHash(log)
  {
    assert log[k] in rows && log[j] in rows;
    var p := NotTheLastRow(rows, log[k], log[j]);
    RowAfterIsUnlinked(hash, log, rows, j, k, p);
    assert FaultAt(hash, rows, p + 1).Some? ==> !Passes(hash, rows);
  }

  /** The trigger still takes its predecessor by highest `seq`, so the verifier, which reads in
      `seq` order, passes a log exactly when it was written in `seq` order, unless two of its rows
      share a hash: the chain verifies for writers that draw `seq` inside the lock, and no others. */
  lemma VerifiesIffWrittenInSeqOrder(hash: Hash, log: seq<Row>, rows: seq<Row>)
    requires FixedLength(hash) && Written(hash, log) && InSeqOrder(rows, log)
    ensures WrittenInSeqOrder(log) ==> Passes(hash, rows)
    ensures Passes(hash, rows) ==> WrittenInSeqOrder(log) || SharesHash(log)
  {
    if WrittenInSeqOrder(log) {
      SameAscendingRows(rows, log);
      LockFirstLogPasses(hash, log);
    } else {
      var j, k :| 0 <= j < k < |log| && log[j].seqNo >= log[k].seqNo;
      assert Overtaken(log, j, k);
      OvertakenBreaksLink(hash, log, rows, j, k);
    }
  }

  /** Two writers, the second to draw its `seq` the first to take the lock: whatever they record,
      the trigger writes both rows, and the verifier finds the link of the second broken. */
  lemma OvertakingLogIsRejected(hash: Hash, late: seq<Bytes>, early: seq<Bytes>)
    requires FixedLength(hash)
    ensures var first := Chained(hash, [], 2, late);
      var second := Chained(hash, [first], 1, early);
      && Written(hash, [first, second]) && InSeqOrder([second, first], [first, second])
      && FirstFault(hash, [second, first], 1, 2, LinkMismatch)
  {
    var first := Chained(hash, [], 2, late);
    var second := Chained(hash, [first], 1, early);
    assert [first, second][..0] == [] && [first, second][..1] == [first];
    assert |first.prevHash| == 1 && |second.rowHash| == DIGEST_LENGTH;
    assert [second, first][..1] == [second];
  }
}
