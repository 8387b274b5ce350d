/** A crash inside a commit: what of it is recovered, and exactly when that is always none or all of it. */
module CommitAtomicity {
  import opened Wrappers
  import opened Json
  import opened Bytes
  import opened Transactions
  import opened WriteAheadLog
  import opened Durability

  // ----- The first operations of a write set -------------------------------------------------

  /** The first `k` operations do nothing, or what all of them do. */
  predicate NoneOrAll(st: State, ops: seq<WriteOp>, k: nat)
    requires k <= |ops|
  {
    ApplyAll(st, ops[..k]) == st || ApplyAll(st, ops[..k]) == ApplyAll(st, ops)
  }

  /** What a write set leaves of a record. */
  function FinalOf(st: State, ops: seq<WriteOp>, rid: nat): Option<Record> {
    if Wrote(ops, rid) then LastWrite(ops, rid).value.Outcome() else Lookup(st, rid)
  }

  predicate Changes(st: State, ops: seq<WriteOp>, rid: nat) {
    FinalOf(st, ops, rid) != Lookup(st, rid)
  }

  /** At most one record is changed, and each operation leaves its record as it was or as it will be. */
  ghost predicate OneChange(st: State, ops: seq<WriteOp>) {
    && (forall q, r :: Changes(st, ops, q) && Changes(st, ops, r) ==> q == r)
    && forall i :: 0 <= i < |ops| ==> Leaves(st, ops, ops[i])
  }

  predicate Leaves(st: State, ops: seq<WriteOp>, op: WriteOp) {
    op.Outcome() == Lookup(st, op.recordId) || op.Outcome() == FinalOf(st, ops, op.recordId)
  }

  /** A state is kept whole by every crash of a commit iff the commit changes one record, back and forth at most. */
  lemma PartsIff(st: State, ops: seq<WriteOp>)
    ensures (forall k: nat :: k <= |ops| ==> NoneOrAll(st, ops, k)) <==> OneChange(st, ops)
  {
    if OneChange(st, ops) {
      forall k: nat | k <= |ops| ensures NoneOrAll(st, ops, k) {
        PartOfOneChange(st, ops, k);
      }
    }
    if forall k: nat :: k <= |ops| ==> NoneOrAll(st, ops, k) {
      forall i | 0 <= i < |ops| ensures Leaves(st, ops, ops[i]) {
        OperationLeaves(st, ops, i);
      }
      forall q, r | Changes(st, ops, q) && Changes(st, ops, r) ensures q == r {
        ApplyAllLastWriteWins(st, ops, q);
        ApplyAllLastWriteWins(st, ops, r);
        assert ops[..|ops|] == ops;
        var i := FirstChange(st, ops, |ops|);
        StepAt(st, ops, i);
        assert NoneOrAll(st, ops, i + 1);
      }
    }
  }

  lemma PartOfOneChange(st: State, ops: seq<WriteOp>, k: nat)
    requires k <= |ops| && OneChange(st, ops)
    ensures NoneOrAll(st, ops, k)
  {
    var part, whole := ApplyAll(st, ops[..k]), ApplyAll(st, ops);
    forall rid ensures Lookup(part, rid) == Lookup(st, rid) || Lookup(part, rid) == Lookup(whole, rid)
      ensures Lookup(whole, rid) == FinalOf(st, ops, rid)
    {
      ApplyAllLastWriteWins(st, ops, rid);
      ApplyAllLastWriteWins(st, ops[..k], rid);
      if Wrote(ops[..k], rid) {
        var i := WrittenAt(ops[..k], rid);
        assert Leaves(st, ops, ops[i]);
      }
    }
    SameLookups(part, st);
    SameLookups(part, whole);
    if part != st {
      var changed :| Lookup(part, changed) != Lookup(st, changed);
      assert Changes(st, ops, changed);
      forall rid ensures Lookup(part, rid) == Lookup(whole, rid) {
        assert Changes(st, ops, rid) ==> rid == changed;
      }
    }
  }

  lemma {:induction false} WrittenAt(ops: seq<WriteOp>, rid: nat) returns (i: nat)
    requires Wrote(ops, rid)
    ensures i < |ops| && ops[i] == LastWrite(ops, rid).value && ops[i].recordId == rid
  {
    if ops[|ops| - 1].recordId == rid {
      i := |ops| - 1;
    } else {
      i := WrittenAt(ops[..|ops| - 1], rid);
    }
  }

  /** One more operation. */
  lemma StepAt(st: State, ops: seq<WriteOp>, i: nat)
    requires i < |ops|
    ensures ApplyAll(st, ops[..i + 1]) == Apply(ApplyAll(st, ops[..i]), ops[i])
  {
    assert ops[..i + 1][..i] == ops[..i];
  }

  lemma OperationLeaves(st: State, ops: seq<WriteOp>, i: nat)
    requires i < |ops| && NoneOrAll(st, ops, i + 1)
    ensures Leaves(st, ops, ops[i])
  {
    StepAt(st, ops, i);
    ApplyAllLastWriteWins(st, ops, ops[i].recordId);
  }

  /** Where the state is first changed. */
  lemma {:induction false} FirstChange(st: State, ops: seq<WriteOp>, k: nat) returns (i: nat)
    requires k <= |ops| && ApplyAll(st, ops[..k]) != st
    ensures i < k && ApplyAll(st, ops[..i]) == st && ApplyAll(st, ops[..i + 1]) != st
  {
    if ApplyAll(st, ops[..k - 1]) == st {
      i := k - 1;
    } else {
      i := FirstChange(st, ops, k - 1);
    }
  }

  // ----- On every state ----------------------------------------------------------------------

  ghost predicate OneOperation(ops: seq<WriteOp>) {
    forall i, j :: 0 <= i < |ops| && 0 <= j < |ops| ==> ops[i] == ops[j]
  }

  /** Writes after which the record is not what the outcome says: an empty record, or nothing. */
  function Against(rid: nat, outcome: Option<Record>): seq<WriteOp> {
    if outcome.Some? then [] else [Upsert(rid, map[])]
  }

  /** Writes that lead to a state that the write set takes through one that is neither it nor the last. */
  lemma Preparation(ops: seq<WriteOp>) returns (before: seq<WriteOp>)
    requires !OneOperation(ops)
    ensures |before| <= 2 && !OneChange(ApplyAll(map[], before), ops)
    ensures forall op :: op in before ==> exists i :: 0 <= i < |ops| && op == Upsert(ops[i].recordId, map[])
  {
    var i, j :| 0 <= i < |ops| && 0 <= j < |ops| && ops[i] != ops[j];
    if ops[i].recordId != ops[j].recordId {
      before := AgainstBoth(ops, i, j);
    } else {
      IsWritten(ops, i);
      var k := if ops[i].Outcome() != LastWrite(ops, ops[i].recordId).value.Outcome() then i else j;
      before := Against(ops[k].recordId, ops[k].Outcome());
      AgainstOne(ops[k].recordId, ops[k].Outcome());
      NotLeft(ApplyAll(map[], before), ops, k);
    }
  }

  lemma NotLeft(st: State, ops: seq<WriteOp>, k: nat)
    requires k < |ops| && Lookup(st, ops[k].recordId) != ops[k].Outcome()
    requires Wrote(ops, ops[k].recordId) && LastWrite(ops, ops[k].recordId).value.Outcome() != ops[k].Outcome()
    ensures !OneChange(st, ops)
  {
    assert !Leaves(st, ops, ops[k]);
  }

  lemma AgainstBoth(ops: seq<WriteOp>, i: nat, j: nat) returns (before: seq<WriteOp>)
    requires i < |ops| && j < |ops| && ops[i].recordId != ops[j].recordId
    ensures |before| <= 2 && !OneChange(ApplyAll(map[], before), ops)
    ensures forall op :: op in before ==> op == Upsert(ops[i].recordId, map[]) || op == Upsert(ops[j].recordId, map[])
  {
    var q, r := ops[i].recordId, ops[j].recordId;
    IsWritten(ops, i);
    IsWritten(ops, j);
    var last, other := LastWrite(ops, q).value.Outcome(), LastWrite(ops, r).value.Outcome();
    before := Against(q, last) + Against(r, other);
    AgainstTwo(q, last, r, other);
    BothChange(ApplyAll(map[], before), ops, q, r);
  }

  lemma BothChange(st: State, ops: seq<WriteOp>, q: nat, r: nat)
    requires q != r && Changes(st, ops, q) && Changes(st, ops, r)
    ensures !OneChange(st, ops)
  {
  }

  lemma AgainstOne(q: nat, outcome: Option<Record>)
    ensures Lookup(ApplyAll(map[], Against(q, outcome)), q) != outcome
  {
    if outcome.None? {
      ApplyOne(map[], Upsert(q, map[]));
    }
  }

  lemma AgainstTwo(q: nat, outcome: Option<Record>, r: nat, other: Option<Record>)
    requires q != r
    ensures var st := ApplyAll(map[], Against(q, outcome) + Against(r, other));
            Lookup(st, q) != outcome && Lookup(st, r) != other
  {
    AgainstOne(q, outcome);
    var st := ApplyAll(map[], Against(q, outcome));
    ApplyAllAppend(map[], Against(q, outcome), Against(r, other));
    if outcome.None? {
      ApplyOne(map[], Upsert(q, map[]));
    }
    if other.None? {
      ApplyOne(st, Upsert(r, map[]));
    }
  }

  lemma ApplyOne(st: State, op: WriteOp)
    ensures ApplyAll(st, [op]) == Apply(st, op)
  {
    assert [op][..0] == [];
  }

  lemma {:induction false} IsWritten(ops: seq<WriteOp>, i: nat)
    requires i < |ops|
    ensures Wrote(ops, ops[i].recordId)
  {
    if ops[|ops| - 1].recordId != ops[i].recordId {
      IsWritten(ops[..|ops| - 1], i);
    }
  }

  /** The first operations do nothing or everything, on every state, iff there is only one operation, over and over. */
  lemma AtomicIff(ops: seq<WriteOp>)
    ensures (forall st: State, k: nat :: k <= |ops| ==> NoneOrAll(st, ops, k)) <==> OneOperation(ops)
  {
    if OneOperation(ops) {
      forall st: State, k: nat | k <= |ops| ensures NoneOrAll(st, ops, k) {
        OneOperationIsOneChange(st, ops);
        PartsIff(st, ops);
      }
    } else {
      var before := Preparation(ops);
      PartsIff(ApplyAll(map[], before), ops);
    }
  }

  lemma OneOperationIsOneChange(st: State, ops: seq<WriteOp>)
    requires OneOperation(ops)
    ensures OneChange(st, ops)
  {
    forall rid | Wrote(ops, rid) ensures rid == ops[0].recordId && FinalOf(st, ops, rid) == ops[0].Outcome() {
      var i := WrittenAt(ops, rid);
    }
    forall i | 0 <= i < |ops| ensures Leaves(st, ops, ops[i]) {
      IsWritten(ops, i);
    }
  }

  // ----- In the log file ---------------------------------------------------------------------

  /** An entry adds at most one operation. */
  lemma {:induction false} LoggedAtMost(es: seq<WalEntry>, m: nat, codec: Codec)
    requires m <= |es|
    ensures Logged(es[..m], codec) <= Logged(es, codec)
    ensures |Logged(es, codec)| <= |Logged(es[..m], codec)| + |es| - m
    decreases |es|
  {
    if m == |es| {
      assert es[..m] == es;
    } else {
      var n := |es| - 1;
      assert es == es[..n] + [es[n]] && es[..n][..m] == es[..m];
      LoggedSnoc(es[..n], es[n], codec);
      LoggedAtMost(es[..n], m, codec);
    }
  }

  /** When the last entries of a log hold one operation each, cutting entries off cuts operations off. */
  lemma LoggedPrefix(es: seq<WalEntry>, m: nat, n: nat, before: seq<WriteOp>, ops: seq<WriteOp>, codec: Codec)
    requires m <= n <= |es| == m + |ops|
    requires Logged(es[..m], codec) == before && Logged(es, codec) == before + ops
    ensures Logged(es[..n], codec) == before + ops[..n - m]
  {
    LoggedAtMost(es, n, codec);
    assert es[..n][..m] == es[..m];
    LoggedAtMost(es[..n], m, codec);
    assert |Logged(es[..n], codec)| == |before| + n - m;
  }

  /** A log file, without stray bytes, whose last operations are those of a commit after these. */
  ghost predicate InLog(file: bytes, es: seq<WalEntry>, m: nat, h: seq<Commit>, ops: seq<WriteOp>, codec: Codec) {
    && AllStorable(es) && file == HEADER + EncodeAll(es) && |es| == m + |ops|
    && Logged(es[..m], codec) == Flatten(h) && Logged(es, codec) == Flatten(h) + ops
  }

  /** Where the entries of the commit start. */
  function StartOf(es: seq<WalEntry>, m: nat): nat
    requires m <= |es|
  {
    WAL_HEADER_SIZE + |EncodeAll(es[..m])|
  }

  /** The cut file opens, and is read as the first `n` entries. */
  ghost predicate OpensWith(file: bytes, hint: Option<nat>, cut: nat, es: seq<WalEntry>, n: nat) {
    && WAL_HEADER_SIZE <= cut <= |file| && n <= |es|
    && Open(file[..cut], hint).Ok? && Parse(file[WAL_HEADER_SIZE..cut]) == Ok(es[..n])
  }

  /** The cut file is refused as truncated. */
  ghost predicate Refused(file: bytes, hint: Option<nat>, cut: nat) {
    cut <= |file| && Open(file[..cut], hint) == Err(TruncatedEntry)
  }

  /**
   A crash leaves the log file cut anywhere in what a commit was appending. Opening then reports a
   truncated entry, or replays to the state committed before with the commit's first operations
   applied: some of them, all or none.
   */
  lemma CrashInsideCommit(file: bytes, hint: Option<nat>, es: seq<WalEntry>, m: nat, h: seq<Commit>,
                          ops: seq<WriteOp>, cut: nat, codec: Codec)
    requires InLog(file, es, m, h, ops, codec) && StartOf(es, m) <= cut <= |file|
    ensures var n := WholeEntries(es, cut - WAL_HEADER_SIZE);
            && m <= n
            && ApplyAll(map[], Logged(es[..n], codec)) == ApplyAll(Current(h), ops[..n - m])
            && if cut - WAL_HEADER_SIZE - |EncodeAll(es[..n])| < 8 then OpensWith(file, hint, cut, es, n)
               else Refused(file, hint, cut)
  {
    WholeAtLeast(es, m, cut - WAL_HEADER_SIZE);
    PartOfCommitRecovered(es, m, WholeEntries(es, cut - WAL_HEADER_SIZE), h, ops, codec);
    CutInside(file, hint, es, cut);
  }

  lemma CutInside(file: bytes, hint: Option<nat>, es: seq<WalEntry>, cut: nat)
    requires AllStorable(es) && file == HEADER + EncodeAll(es) && WAL_HEADER_SIZE <= cut <= |file|
    ensures var n := WholeEntries(es, cut - WAL_HEADER_SIZE);
            if cut - WAL_HEADER_SIZE - |EncodeAll(es[..n])| < 8 then OpensWith(file, hint, cut, es, n)
            else Refused(file, hint, cut)
  {
    CutOpens(file, hint, es, cut);
  }

  lemma PartOfCommitRecovered(es: seq<WalEntry>, m: nat, n: nat, h: seq<Commit>, ops: seq<WriteOp>, codec: Codec)
    requires m <= n <= |es| == m + |ops|
    requires Logged(es[..m], codec) == Flatten(h) && Logged(es, codec) == Flatten(h) + ops
    ensures ApplyAll(map[], Logged(es[..n], codec)) == ApplyAll(Current(h), ops[..n - m])
  {
    LoggedPrefix(es, m, n, Flatten(h), ops, codec);
    ApplyAllAppend(map[], Flatten(h), ops[..n - m]);
    CurrentIsFold(h);
  }

  /** A cut file that opens is read, and replays to the state before the commit or to the one after it. */
  ghost predicate AtomicAt(file: bytes, hint: Option<nat>, cut: nat, h: seq<Commit>, ops: seq<WriteOp>, codec: Codec)
    requires WAL_HEADER_SIZE <= cut <= |file|
  {
    Open(file[..cut], hint).Ok? ==>
      && Parse(file[WAL_HEADER_SIZE..cut]).Ok?
      && var recovered := ApplyAll(map[], Logged(Parse(file[WAL_HEADER_SIZE..cut]).value, codec));
         recovered == Current(h) || recovered == ApplyAll(Current(h), ops)
  }

  /** So it is wherever in the commit's entries the crash comes. */
  ghost predicate Atomic(file: bytes, hint: Option<nat>, es: seq<WalEntry>, m: nat, h: seq<Commit>, ops: seq<WriteOp>,
                         codec: Codec)
    requires m <= |es|
  {
    forall cut: nat :: StartOf(es, m) <= cut <= |file| ==> AtomicAt(file, hint, cut, h, ops, codec)
  }

  /**
   Every crash inside a commit is recovered as none or all of it iff the commit changes at most one
   record, and each of its operations leaves its record as it was before or as the commit leaves it.
   */
  lemma CrashIsAtomicIff(file: bytes, hint: Option<nat>, es: seq<WalEntry>, m: nat, h: seq<Commit>,
                         ops: seq<WriteOp>, codec: Codec)
    requires InLog(file, es, m, h, ops, codec)
    ensures Atomic(file, hint, es, m, h, ops, codec) <==> OneChange(Current(h), ops)
  {
    PartsIff(Current(h), ops);
    if OneChange(Current(h), ops) {
      forall cut: nat | StartOf(es, m) <= cut <= |file| ensures AtomicAt(file, hint, cut, h, ops, codec) {
        NoneOrAllRecovered(file, hint, es, m, h, ops, cut, codec);
      }
    }
    if Atomic(file, hint, es, m, h, ops, codec) {
      forall k: nat | k <= |ops| ensures NoneOrAll(Current(h), ops, k) {
        CutAfter(file, hint, es, m, h, ops, k, codec);
      }
    }
  }

  lemma NoneOrAllRecovered(file: bytes, hint: Option<nat>, es: seq<WalEntry>, m: nat, h: seq<Commit>,
                           ops: seq<WriteOp>, cut: nat, codec: Codec)
    requires InLog(file, es, m, h, ops, codec) && StartOf(es, m) <= cut <= |file|
    requires forall k: nat :: k <= |ops| ==> NoneOrAll(Current(h), ops, k)
    ensures AtomicAt(file, hint, cut, h, ops, codec)
  {
    var n := PartAt(file, hint, es, m, h, ops, cut, codec);
    if OpensWith(file, hint, cut, es, n) {
      OpenedAtomicIff(file, hint, cut, es, n, h, ops, n - m, codec);
    }
  }

  /** The entries that a crash leaves whole. */
  lemma PartAt(file: bytes, hint: Option<nat>, es: seq<WalEntry>, m: nat, h: seq<Commit>, ops: seq<WriteOp>, cut: nat,
               codec: Codec)
    returns (n: nat)
    requires InLog(file, es, m, h, ops, codec) && StartOf(es, m) <= cut <= |file|
    ensures m <= n <= m + |ops| && n <= |es|
    ensures ApplyAll(map[], Logged(es[..n], codec)) == ApplyAll(Current(h), ops[..n - m])
    ensures OpensWith(file, hint, cut, es, n) || Refused(file, hint, cut)
  {
    n := WholeEntries(es, cut - WAL_HEADER_SIZE);
    CrashInsideCommit(file, hint, es, m, h, ops, cut, codec);
  }

  lemma OpenedAtomicIff(file: bytes, hint: Option<nat>, cut: nat, es: seq<WalEntry>, n: nat, h: seq<Commit>,
                        ops: seq<WriteOp>, k: nat, codec: Codec)
    requires OpensWith(file, hint, cut, es, n) && k <= |ops|
    requires ApplyAll(map[], Logged(es[..n], codec)) == ApplyAll(Current(h), ops[..k])
    ensures AtomicAt(file, hint, cut, h, ops, codec) <==> NoneOrAll(Current(h), ops, k)
  {
  }

  /** The crash right after the `k`-th entry of the commit recovers its first `k` operations. */
  lemma CutAfter(file: bytes, hint: Option<nat>, es: seq<WalEntry>, m: nat, h: seq<Commit>, ops: seq<WriteOp>, k: nat,
                 codec: Codec)
    requires InLog(file, es, m, h, ops, codec) && k <= |ops|
    ensures StartOf(es, m) <= StartOf(es, m + k) <= |file|
    ensures AtomicAt(file, hint, StartOf(es, m + k), h, ops, codec) <==> NoneOrAll(Current(h), ops, k)
  {
    EncodedPrefixes(es, m, m + k);
    RecoveredAfter(file, hint, es, m, h, ops, m + k, codec);
    OpenedAtomicIff(file, hint, StartOf(es, m + k), es, m + k, h, ops, k, codec);
  }

  lemma RecoveredAfter(file: bytes, hint: Option<nat>, es: seq<WalEntry>, m: nat, h: seq<Commit>, ops: seq<WriteOp>,
                       n: nat, codec: Codec)
    requires InLog(file, es, m, h, ops, codec) && m <= n <= |es| && StartOf(es, n) <= |file|
    ensures OpensWith(file, hint, StartOf(es, n), es, n)
    ensures ApplyAll(map[], Logged(es[..n], codec)) == ApplyAll(Current(h), ops[..n - m])
  {
    PartOfCommitRecovered(es, m, n, h, ops, codec);
    OpensAfter(file, hint, es, n);
  }

  lemma OpensAfter(file: bytes, hint: Option<nat>, es: seq<WalEntry>, n: nat)
    requires AllStorable(es) && file == HEADER + EncodeAll(es) && n <= |es| && StartOf(es, n) <= |file|
    ensures OpensWith(file, hint, StartOf(es, n), es, n)
  {
    WholeAt(es, n);
    CutInside(file, hint, es, StartOf(es, n));
  }

  lemma EncodedPrefixes(es: seq<WalEntry>, m: nat, n: nat)
    requires m <= n <= |es|
    ensures |EncodeAll(es[..m])| <= |EncodeAll(es[..n])| <= |EncodeAll(es)|
  {
    EncodedWithin(es, n);
    EncodedWithin(es[..n], m);
    assert es[..n][..m] == es[..m];
  }

  lemma {:induction false} EncodedWithin(es: seq<WalEntry>, n: nat)
    requires n <= |es|
    ensures |EncodeAll(es[..n])| <= |EncodeAll(es)|
    decreases n
  {
    if n == 0 {
      assert es[..0] == [];
    } else {
      assert es[..n][0] == es[0] && es[..n][1..] == es[1..][..n - 1];
      EncodedWithin(es[1..], n - 1);
    }
  }

  // ----- Over all log files ------------------------------------------------------------------

  /** The entries that log these operations. */
  function EntriesOf(ops: seq<WriteOp>, txnId: nat, codec: Codec): (es: seq<WalEntry>)
    ensures |es| == |ops|
    ensures forall i :: 0 <= i < |ops| ==> es[i] == WalEntry(i + 1, codec.encode(PayloadOf(txnId, ops[i])))
  {
    seq(|ops|, i requires 0 <= i < |ops| => WalEntry(i + 1, codec.encode(PayloadOf(txnId, ops[i]))))
  }

  lemma {:induction false} EntriesLog(ops: seq<WriteOp>, txnId: nat, codec: Codec)
    requires RoundTrips(codec)
    ensures Logged(EntriesOf(ops, txnId, codec), codec) == ops
  {
    if ops == [] {
    } else {
      var n := |ops| - 1;
      assert EntriesOf(ops, txnId, codec)[..n] == EntriesOf(ops[..n], txnId, codec);
      EntriesLog(ops[..n], txnId, codec);
      FrontAndLast(ops);
    }
  }

  /** A log of one commit, and another after it. */
  lemma TwoCommits(before: seq<WriteOp>, ops: seq<WriteOp>, txnId: nat, codec: Codec)
    returns (file: bytes, es: seq<WalEntry>, h: seq<Commit>)
    requires RoundTrips(codec) && |before| + |ops| <= U64_MAX
    requires forall op :: op in before || op in ops ==> Fits(op, txnId, codec)
    ensures InLog(file, es, |before|, h, ops, codec) && Current(h) == ApplyAll(map[], before)
  {
    es, h := EntriesOf(before + ops, txnId, codec), [Commit(txnId, 0, 1, before)];
    file := HEADER + EncodeAll(es);
    assert es[..|before|] == EntriesOf(before, txnId, codec);
    EntriesLog(before, txnId, codec);
    EntriesLog(before + ops, txnId, codec);
    HistorySnoc([], h[0]);
    assert forall op :: op in before + ops ==> op in before || op in ops;
    EntriesStorable(before + ops, txnId, codec);
  }

  lemma EntriesStorable(ops: seq<WriteOp>, txnId: nat, codec: Codec)
    requires |ops| <= U64_MAX && forall op :: op in ops ==> Fits(op, txnId, codec)
    ensures AllStorable(EntriesOf(ops, txnId, codec))
  {
    assert forall i :: 0 <= i < |ops| ==> ops[i] in ops;
  }

  /**
   Over all log files in which it is the last commit: a write set is recovered as none or all of it
   after every crash, iff it is one operation, given once or more. (Each operation, and an empty record
   in place of one, can be framed.)
   */
  lemma CommitIsAtomicIff(ops: seq<WriteOp>, txnId: nat, hint: Option<nat>, codec: Codec)
    requires RoundTrips(codec) && |ops| + 2 <= U64_MAX
    requires forall i :: 0 <= i < |ops| ==>
               Fits(ops[i], txnId, codec) && Fits(Upsert(ops[i].recordId, map[]), txnId, codec)
    ensures (forall file, es, m: nat, h :: InLog(file, es, m, h, ops, codec) ==>
              Atomic(file, hint, es, m, h, ops, codec))
            <==> OneOperation(ops)
  {
    if OneOperation(ops) {
      forall file, es, m: nat, h | InLog(file, es, m, h, ops, codec)
        ensures Atomic(file, hint, es, m, h, ops, codec)
      {
        OneOperationIsOneChange(Current(h), ops);
        CrashIsAtomicIff(file, hint, es, m, h, ops, codec);
      }
    } else {
      var before := Preparation(ops);
      var file, es, h := TwoCommits(before, ops, txnId, codec);
      CrashIsAtomicIff(file, hint, es, |before|, h, ops, codec);
    }
  }

  /** Two records written into an empty store, and the log cut after the first: recovery finds one of the two. */
  lemma HalfACommit(q: nat, r: nat, record: Record, txnId: nat, hint: Option<nat>, codec: Codec)
    requires q != r && RoundTrips(codec)
    requires Fits(Upsert(q, record), txnId, codec) && Fits(Upsert(r, record), txnId, codec)
    ensures var es := EntriesOf([Upsert(q, record), Upsert(r, record)], txnId, codec);
            var file := HEADER + EncodeAll(es);
            var cut := StartOf(es, 1);
            && OpensWith(file, hint, cut, es, 1)
            && ApplyAll(map[], Logged(es[..1], codec)) == map[q := record]
            && ApplyAll(map[], Logged(es, codec)) == map[q := record, r := record]
  {
    var ops := [Upsert(q, record), Upsert(r, record)];
    var es := EntriesOf(ops, txnId, codec);
    EntriesLog(ops, txnId, codec);
    TwoApplied(q, r, record);
    assert es[..0] == [];
    EncodedPrefixes(es, 0, 1);
    RecoveredAfter(HEADER + EncodeAll(es), hint, es, 0, [], ops, 1, codec);
  }

  lemma TwoApplied(q: nat, r: nat, record: Record)
    ensures var ops := [Upsert(q, record), Upsert(r, record)];
            && ApplyAll(map[], ops[..1]) == map[q := record]
            && ApplyAll(map[], ops) == map[q := record, r := record]
  {
    var ops := [Upsert(q, record), Upsert(r, record)];
    StepAt(map[], ops, 0);
    StepAt(map[], ops, 1);
    assert ops[..0] == [] && ops[..2] == ops;
  }
}
