/** The operations a client sends, each run as a transaction of its own. */
module WireOperations {
  import opened Wrappers
  import opened Json
  import opened Transactions
  import opened TransactionManagers
  import opened WriteAheadLog
  import opened Durability
  import opened DurableStores
  import opened Query
  import Ordering

  datatype WireError = NotAnObject | NoNumericId | Failed(error: StoreError)

  /** `record_id_from_record`: the `id` field as a `u64`. */
  function RecordId(row: Record): Option<nat> {
    if "id" in row && row["id"].Number? && row["id"].n.PosInt? then Some(row["id"].n.u) else None
  }

  /** A state with the same fields set in some of its records. */
  function Updated(st: State, ids: set<nat>, setFields: Record): State {
    map id | id in st :: if id in ids then st[id] + setFields else st[id]
  }

  /** The record after is the one before, with these fields set if it is selected: the others are as they were. */
  ghost predicate SetIn(before: Record, after: Record, setFields: Record, selected: bool) {
    && (forall f :: f in after <==> f in before || (selected && f in setFields))
    && (forall f :: f in after ==> after[f] == if selected && f in setFields then setFields[f] else before[f])
  }

  lemma UpdatedMeans(st: State, ids: set<nat>, setFields: Record)
    ensures Updated(st, ids, setFields).Keys == st.Keys
    ensures forall id :: id in st ==> SetIn(st[id], Updated(st, ids, setFields)[id], setFields, id in ids)
  {
  }

  predicate ComparesText(filter: Ast) {
    |filter.wheres| == 1 && filter.wheres[0].value.Text?
  }

  /** Where the filter is one comparison with a text: exactly the records whose text stands so have the fields set. */
  ghost predicate TextUpdated(before: State, after: State, filter: Ast, setFields: Record) {
    ComparesText(filter) ==>
      && after.Keys == before.Keys
      && forall id :: id in before ==>
           SetIn(before[id], after[id], setFields, Selects(filter.wheres[0], before[id]))
  }

  /** And exactly those are gone. */
  ghost predicate TextDeleted(before: State, after: State, filter: Ast) {
    ComparesText(filter) ==>
      forall id :: id in after <==> id in before && !Selects(filter.wheres[0], before[id])
  }

  lemma TextClauseUpdates(st: State, ids: set<nat>, filter: Ast, setFields: Record, num: NumberTest)
    requires ids == MatchingIds(st, filter, num)
    ensures TextUpdated(st, Updated(st, ids, setFields), filter, setFields)
  {
    UpdatedMeans(st, ids, setFields);
    if ComparesText(filter) {
      forall id | id in st ensures id in ids <==> Selects(filter.wheres[0], st[id]) {
        TextClauseSelects(st, filter, num, id);
      }
    }
  }

  lemma TextClauseDeletes(st: State, ids: set<nat>, filter: Ast, num: NumberTest)
    requires ids == MatchingIds(st, filter, num)
    ensures TextDeleted(st, st - ids, filter)
  {
    if ComparesText(filter) {
      forall id ensures id in ids <==> id in st && Selects(filter.wheres[0], st[id]) {
        TextClauseSelects(st, filter, num, id);
      }
    }
  }

  // ----- The id of a record ------------------------------------------------------------------

  /** A record has an id iff its `id` field holds an integer that is not negative, and it is that. */
  lemma RecordIdIff(row: Record, id: nat)
    ensures RecordId(row) == Some(id) <==> "id" in row && HoldsInteger(row["id"], id)
  {
  }

  /** What is inserted, and why it is refused. */
  lemma ToRowMeans(value: Value)
    ensures ToRow(value) == Err(NotAnObject) <==> !value.Object?
    ensures ToRow(value) == Err(NoNumericId)
            <==> value.Object? && forall id: nat :: "id" in value.members ==> !HoldsInteger(value.members["id"], id)
    ensures ToRow(value).Ok? ==>
              && value == Object(ToRow(value).value.1)
              && "id" in value.members && HoldsInteger(value.members["id"], ToRow(value).value.0)
  {
    if value.Object? {
      forall id: nat ensures RecordId(value.members) == Some(id) <==>
                             "id" in value.members && HoldsInteger(value.members["id"], id)
      {
        RecordIdIff(value.members, id);
      }
    }
  }

  /** Every record is stored under the integer in its `id` field. */
  ghost predicate KeyedByIds(st: State) {
    forall id :: id in st ==> "id" in st[id] && HoldsInteger(st[id]["id"], id)
  }

  /** An insert leaves it so. */
  lemma InsertKeepsIds(st: State, value: Value)
    requires KeyedByIds(st) && ToRow(value).Ok?
    ensures KeyedByIds(st[ToRow(value).value.0 := ToRow(value).value.1])
    ensures value == Object(ToRow(value).value.1)
  {
    RecordIdIff(value.members, ToRow(value).value.0);
  }

  /** A delete does; an update does iff it sets no `id`, or the one that each record it changes has. */
  lemma UpdateKeepsIdsIff(st: State, ids: set<nat>, setFields: Record)
    requires KeyedByIds(st) && ids <= st.Keys
    ensures KeyedByIds(st - ids)
    ensures KeyedByIds(Updated(st, ids, setFields))
            <==> "id" in setFields ==> forall id :: id in ids ==> HoldsInteger(setFields["id"], id)
  {
    UpdatedMeans(st, ids, setFields);
    forall id | id in ids ensures id in Updated(st, ids, setFields) {
    }
  }

  /** A transaction begun now can commit whatever it writes. */
  lemma FreshCommits(db: Db, h: seq<Commit>, horizon: nat, t: Txn)
    requires Refines(db, h, horizon) && t.status == Active && t.snapshotTs == db.clock
    ensures CanCommit(db, t).Ok?
  {
    ConflictIsExact(db, h, horizon, t);
  }

  /** What a client hears of the log. */
  function Answer<T>(logged: Result<(), StoreError>, ok: T): Result<T, WireError> {
    match logged
    case Err(e) => Err(Failed(e))
    case Ok(_) => Ok(ok)
  }

  /** The commit of a transaction that cannot conflict goes through iff its write set is logged whole. */
  method CommitFresh(store: DurableTransactionStore, txn: Transaction, fault: Fault) returns (r: Result<(), WireError>)
    requires store.Valid() && store.wal.nextSequence + |txn.writeSet| <= U64_MAX
    requires txn.status == Active && txn.snapshotTs == store.manager.clockTs
    modifies store`entries, store`torn, store`indexed, store.manager, store.manager.repr, store.wal, store.indexes, txn
    ensures store.Valid()
    ensures r == Answer(LogOutcome(old(txn.writeSet), txn.txnId, store.codec, fault), ())
    ensures Logs(store, old(store.entries), old(store.torn), old(txn.writeSet), txn.txnId, fault)
    ensures store.Committed() == if r.Ok? then ApplyAll(old(store.Committed()), old(txn.writeSet))
                else old(store.Committed())
    ensures store.indexed == if r.Ok? then ApplyAll(old(store.indexed), old(txn.writeSet)) else old(store.indexed)
  {
    FreshCommits(store.manager.Model(), store.manager.history, store.manager.horizon, txn.View());
    ghost var db, t := store.manager.Model(), txn.View();
    FreshReaches(db, t, store.codec, fault);
    var c := store.CommitInner(txn, true, fault);
    if c.Err? {
      return Err(Failed(c.error));
    }
    return Ok(());
  }

  /**
   The log has grown by the operations that get through, and is torn iff it was or they are part of
   a failed commit.
   */
  ghost predicate Logs(store: DurableTransactionStore, was: seq<WalEntry>, torn: bool, ops: seq<WriteOp>, txnId: nat,
                       fault: Fault)
    reads store`entries, store`torn
  {
    var k := Reach(ops, txnId, store.codec, fault);
    && store.Grown(was, ops[..k])
    && store.torn == (torn || (LogOutcome(ops, txnId, store.codec, fault).Err? && k > 0))
  }

  lemma FreshReaches(db: Db, t: Txn, codec: Codec, fault: Fault)
    requires CanCommit(db, t).Ok?
    ensures var logged := LogOutcome(t.writeSet, t.txnId, codec, fault);
            && Reached(db, t, codec, fault) == t.writeSet[..Reach(t.writeSet, t.txnId, codec, fault)]
            && (Outcome(db, t, codec, fault).Ok? <==> logged.Ok?)
            && (logged.Err? ==> Outcome(db, t, codec, fault).error == logged.error)
  {
  }

  lemma ApplySnoc(st: State, ops: seq<WriteOp>, op: WriteOp)
    ensures ApplyAll(st, ops + [op]) == Apply(ApplyAll(st, ops), op)
  {
    assert (ops + [op])[..|ops|] == ops;
  }

  /** The records a filter selects, as the transaction sees them. */
  method Select(manager: TransactionManager, txn: Transaction, filter: Ast, num: NumberTest) returns (ids: set<nat>)
    requires manager.Valid() && manager.horizon <= txn.snapshotTs
    ensures ids == MatchingIds(StateAt(manager.history, txn.snapshotTs), filter, num)
  {
    var visible := manager.VisibleRecords(txn);
    ids := set id | id in visible && MatchesRecord(visible[id], filter.wheres, num);
  }

  /** The writes of an update: each selected record once, with the fields set, in some order. */
  ghost predicate Upserts(ops: seq<WriteOp>, st: State, ids: set<nat>, setFields: Record)
    requires ids <= st.Keys
  {
    && (forall id :: id in ids ==> Upsert(id, st[id] + setFields) in ops)
    && (forall i :: 0 <= i < |ops| ==>
         ops[i].recordId in ids && ops[i] == Upsert(ops[i].recordId, st[ops[i].recordId] + setFields))
  }

  lemma UpsertsSnoc(ops: seq<WriteOp>, st: State, done: set<nat>, id: nat, setFields: Record)
    requires done <= st.Keys && id in st && Upserts(ops, st, done, setFields)
    ensures Upserts(ops + [Upsert(id, st[id] + setFields)], st, done + {id}, setFields)
  {
  }

  lemma DeletesSnoc(ops: seq<WriteOp>, done: set<nat>, id: nat)
    requires Deletes(ops, done)
    ensures Deletes(ops + [Delete(id)], done + {id})
  {
  }

  /** The writes of a delete. */
  ghost predicate Deletes(ops: seq<WriteOp>, ids: set<nat>) {
    && (forall id :: id in ids ==> Delete(id) in ops)
    && (forall i :: 0 <= i < |ops| ==> ops[i].recordId in ids && ops[i] == Delete(ops[i].recordId))
  }

  /** The loop of an update: every selected record is read, changed and written back. */
  method StageUpdates(manager: TransactionManager, txn: Transaction, ids: set<nat>, setFields: Record)
    requires manager.Valid() && manager.horizon <= txn.snapshotTs
    requires txn.writeSet == [] && ids <= StateAt(manager.history, txn.snapshotTs).Keys
    modifies txn
    ensures txn.status == old(txn.status) && |txn.writeSet| == |ids|
    ensures var st := StateAt(manager.history, txn.snapshotTs);
            && Upserts(txn.writeSet, st, ids, setFields)
            && ApplyAll(st, txn.writeSet) == Updated(st, ids, setFields)
  {
    ghost var st := StateAt(manager.history, txn.snapshotTs);
    ghost var done: set<nat> := {};
    var todo := ids;
    UpdatedNone(st, setFields);
    while todo != {}
      invariant todo <= ids && done == ids - todo && |txn.writeSet| + |todo| == |ids|
      invariant Upserts(txn.writeSet, st, done, setFields)
      invariant ApplyAll(st, txn.writeSet) == Updated(st, done, setFields)
      invariant txn.status == old(txn.status)
      decreases |todo|
    {
      var id :| id in todo;
      StageUpdate(manager, txn, id, setFields, st, done);
      MoveOver(ids, todo, id);
      done, todo := ids - (todo - {id}), todo - {id};
    }
    assert done == ids;
  }

  lemma MoveOver(ids: set<nat>, todo: set<nat>, id: nat)
    requires todo <= ids && id in todo
    ensures ids - (todo - {id}) == ids - todo + {id}
  {
  }

  method StageUpdate(manager: TransactionManager, txn: Transaction, id: nat, setFields: Record,
                     ghost st: State, ghost done: set<nat>)
    requires manager.Valid() && manager.horizon <= txn.snapshotTs && st == StateAt(manager.history, txn.snapshotTs)
    requires id in st && id !in done && done <= st.Keys
    requires Upserts(txn.writeSet, st, done, setFields) && ApplyAll(st, txn.writeSet) == Updated(st, done, setFields)
    modifies txn
    ensures txn.status == old(txn.status) && |txn.writeSet| == |old(txn.writeSet)| + 1
    ensures Upserts(txn.writeSet, st, done + {id}, setFields)
    ensures ApplyAll(st, txn.writeSet) == Updated(st, done + {id}, setFields)
  {
    var row := manager.Read(txn, id);
    assert row == Some(st[id]);
    ApplySnoc(st, txn.writeSet, Upsert(id, row.value + setFields));
    UpdatedSnoc(st, done, id, setFields);
    UpsertsSnoc(txn.writeSet, st, done, id, setFields);
    manager.Write(txn, Upsert(id, row.value + setFields));
  }

  lemma UpdatedNone(st: State, setFields: Record)
    ensures Updated(st, {}, setFields) == st
  {
  }

  lemma UpdatedSnoc(st: State, done: set<nat>, id: nat, setFields: Record)
    requires id in st && id !in done
    ensures Updated(st, done, setFields)[id := st[id] + setFields] == Updated(st, done + {id}, setFields)
  {
  }

  /** The loop of a delete. */
  method StageDeletes(manager: TransactionManager, txn: Transaction, ids: set<nat>)
    requires txn.writeSet == []
    modifies txn
    ensures txn.status == old(txn.status) && |txn.writeSet| == |ids|
    ensures Deletes(txn.writeSet, ids) && forall st: State :: ApplyAll(st, txn.writeSet) == st - ids
  {
    ghost var done: set<nat> := {};
    var todo := ids;
    while todo != {}
      invariant todo <= ids && done == ids - todo && |txn.writeSet| + |todo| == |ids|
      invariant Deletes(txn.writeSet, done) && forall st: State :: ApplyAll(st, txn.writeSet) == st - done
      invariant txn.status == old(txn.status)
      decreases |todo|
    {
      var id :| id in todo;
      forall st: State ensures ApplyAll(st, txn.writeSet + [Delete(id)]) == st - (done + {id}) {
        ApplySnoc(st, txn.writeSet, Delete(id));
        assert st - done - {id} == st - (done + {id});
      }
      DeletesSnoc(txn.writeSet, done, id);
      manager.Write(txn, Delete(id));
      MoveOver(ids, todo, id);
      done, todo := ids - (todo - {id}), todo - {id};
    }
    assert done == ids;
  }

  lemma OneWrite(st: State, op: WriteOp)
    ensures ApplyAll(st, [op]) == Apply(st, op)
  {
    assert [op][..0] == [];
  }

  /** A transaction, and the committed records that the filter selects in it. */
  method BeginAndSelect(store: DurableTransactionStore, filter: Ast, num: NumberTest)
    returns (txn: Transaction, ids: set<nat>)
    requires store.Valid()
    modifies store.manager
    ensures store.Valid() && fresh(txn) && store.Committed() == old(store.Committed())
    ensures store.manager.repr == old(store.manager.repr)
    ensures txn.status == Active && txn.writeSet == [] && txn.snapshotTs == store.manager.clockTs
    ensures txn.txnId == SaturatingSucc(old(store.manager.nextTxnId))
    ensures store.manager.horizon <= txn.snapshotTs
    ensures StateAt(store.manager.history, txn.snapshotTs) == store.Committed()
    ensures ids == MatchingIds(store.Committed(), filter, num)
  {
    txn := store.Begin();
    FreshSnapshotSeesCurrent(store.manager.history, txn.snapshotTs);
    ids := Select(store.manager, txn, filter, num);
  }

  /** The end of an update or a delete: a commit when there is something to write, else a rollback. */
  method Finish(store: DurableTransactionStore, txn: Transaction, fault: Fault) returns (r: Result<(), WireError>)
    requires store.Valid() && store.wal.nextSequence + |txn.writeSet| <= U64_MAX
    requires txn.status == Active && txn.snapshotTs == store.manager.clockTs
    modifies store`entries, store`torn, store`indexed, store.manager, store.manager.repr, store.wal, store.indexes, txn
    ensures store.Valid()
    ensures old(txn.writeSet) == [] ==> r.Ok? && Untouched(store, old(store.entries), old(store.torn))
    ensures old(txn.writeSet) != [] ==>
              && r == Answer(LogOutcome(old(txn.writeSet), txn.txnId, store.codec, fault), ())
              && Logs(store, old(store.entries), old(store.torn), old(txn.writeSet), txn.txnId, fault)
    ensures store.Committed() == if r.Ok? then ApplyAll(old(store.Committed()), old(txn.writeSet))
                else old(store.Committed())
    ensures store.indexed == if r.Ok? then ApplyAll(old(store.indexed), old(txn.writeSet)) else old(store.indexed)
  {
    if txn.writeSet == [] {
      var rolled := store.Rollback(txn);
      return Ok(());
    }
    r := CommitFresh(store, txn, fault);
  }

  ghost predicate Untouched(store: DurableTransactionStore, was: seq<WalEntry>, torn: bool)
    reads store`entries, store`torn
  {
    store.entries == was && store.torn == torn
  }

  /** `json_object_to_record` and `record_id_from_record`. */
  function ToRow(value: Value): Result<(nat, Record), WireError> {
    if !value.Object? then Err(NotAnObject)
    else if RecordId(value.members).None? then Err(NoNumericId)
    else Ok((RecordId(value.members).value, value.members))
  }

  /**
   An insert puts the record under its own `id`; a value that is no object, or has no such id, is
   refused. It succeeds iff the one operation is logged; otherwise nothing is committed.
   */
  method ExecuteInsert(store: DurableTransactionStore, value: Value, fault: Fault) returns (r: Result<nat, WireError>)
    requires store.Valid() && store.wal.nextSequence < U64_MAX
    modifies store`entries, store`torn, store`indexed, store.manager, store.manager.repr, store.wal, store.indexes
    ensures store.Valid()
    ensures ToRow(value).Err? ==> r == Err(ToRow(value).error) && Untouched(store, old(store.entries), old(store.torn))
    ensures ToRow(value).Ok? ==>
              var ops := [Upsert(ToRow(value).value.0, ToRow(value).value.1)];
              var txnId := SaturatingSucc(old(store.manager.nextTxnId));
              && r == Answer(LogOutcome(ops, txnId, store.codec, fault), 1)
              && Logs(store, old(store.entries), old(store.torn), ops, txnId, fault)
    ensures r.Ok? ==> r.value == 1 && ToRow(value).Ok?
    ensures r.Ok? ==> store.Committed() == old(store.Committed())[ToRow(value).value.0 := ToRow(value).value.1]
    ensures r.Ok? ==> store.indexed == old(store.indexed)[ToRow(value).value.0 := ToRow(value).value.1]
    ensures r.Err? ==> store.Committed() == old(store.Committed()) && store.indexed == old(store.indexed)
  {
    var txn := store.Begin();
    var row := ToRow(value);
    if row.Err? {
      return Err(row.error);
    }
    var done := InsertRow(store, txn, row.value.0, row.value.1, fault);
    if done.Err? {
      return Err(done.error);
    }
    return Ok(1);
  }

  method InsertRow(store: DurableTransactionStore, txn: Transaction, id: nat, record: Record, fault: Fault)
    returns (r: Result<(), WireError>)
    requires store.Valid() && store.wal.nextSequence < U64_MAX
    requires txn.status == Active && txn.snapshotTs == store.manager.clockTs && txn.writeSet == []
    modifies store`entries, store`torn, store`indexed, store.manager, store.manager.repr, store.wal, store.indexes, txn
    ensures store.Valid()
    ensures r == Answer(LogOutcome([Upsert(id, record)], txn.txnId, store.codec, fault), ())
    ensures Logs(store, old(store.entries), old(store.torn), [Upsert(id, record)], txn.txnId, fault)
    ensures store.Committed() == if r.Ok? then old(store.Committed())[id := record] else old(store.Committed())
    ensures store.indexed == if r.Ok? then old(store.indexed)[id := record] else old(store.indexed)
  {
    OneWrite(store.Committed(), Upsert(id, record));
    OneWrite(store.indexed, Upsert(id, record));
    store.manager.Write(txn, Upsert(id, record));
    assert txn.writeSet == [Upsert(id, record)];
    r := CommitFresh(store, txn, fault);
  }

  /** The rows affected, when the commit went through. */
  function Rows(done: Result<(), WireError>, n: nat): Result<nat, WireError> {
    match done
    case Err(e) => Err(e)
    case Ok(_) => Ok(n)
  }

  /** When every write of an update can be framed, whatever the order they were staged in. */
  ghost predicate UpsertsFit(st: State, ids: set<nat>, setFields: Record, txnId: nat, codec: Codec)
    requires ids <= st.Keys
  {
    forall id :: id in ids ==> Fits(Upsert(id, st[id] + setFields), txnId, codec)
  }

  lemma UpsertsLogged(ops: seq<WriteOp>, st: State, ids: set<nat>, setFields: Record, txnId: nat, codec: Codec,
                      fault: Fault)
    requires ids <= st.Keys && Upserts(ops, st, ids, setFields)
    ensures LogOutcome(ops, txnId, codec, fault).Ok?
       <==> !Strikes(fault, |ops|) && UpsertsFit(st, ids, setFields, txnId, codec)
  {
    if UpsertsFit(st, ids, setFields, txnId, codec) {
      forall i | 0 <= i < |ops| ensures Fits(ops[i], txnId, codec) {
        assert ops[i] == Upsert(ops[i].recordId, st[ops[i].recordId] + setFields);
      }
    } else {
      var id :| id in ids && !Fits(Upsert(id, st[id] + setFields), txnId, codec);
      assert Upsert(id, st[id] + setFields) in ops;
    }
  }

  method UpdateSelected(store: DurableTransactionStore, txn: Transaction, ids: set<nat>, setFields: Record,
                        fault: Fault)
    returns (r: Result<(), WireError>, ghost ops: seq<WriteOp>)
    requires store.Valid() && store.wal.nextSequence + |store.Committed()| <= U64_MAX
    requires txn.status == Active && txn.snapshotTs == store.manager.clockTs && txn.writeSet == []
    requires store.manager.horizon <= txn.snapshotTs
    requires StateAt(store.manager.history, txn.snapshotTs) == store.Committed()
    requires ids <= store.Committed().Keys
    modifies store`entries, store`torn, store`indexed, store.manager, store.manager.repr, store.wal, store.indexes, txn
    ensures store.Valid()
    ensures Upserts(ops, old(store.Committed()), ids, setFields) && |ops| == |ids|
    ensures r.Ok? <==> || ids == {}
                       || (!Strikes(fault, |ids|)
                           && UpsertsFit(old(store.Committed()), ids, setFields, txn.txnId, store.codec))
    ensures ids == {} ==> Untouched(store, old(store.entries), old(store.torn))
    ensures ids != {} ==>
              && r == Answer(LogOutcome(ops, txn.txnId, store.codec, fault), ())
              && Logs(store, old(store.entries), old(store.torn), ops, txn.txnId, fault)
    ensures store.Committed() == if r.Ok? then Updated(old(store.Committed()), ids, setFields)
                else old(store.Committed())
    ensures r.Ok? && old(store.indexed) == old(store.Committed()) ==> store.indexed == store.Committed()
    ensures r.Err? ==> store.indexed == old(store.indexed)
  {
    Ordering.SizeOfSubset(ids, store.Committed().Keys);
    StageUpdates(store.manager, txn, ids, setFields);
    ops := txn.writeSet;
    UpsertsLogged(ops, store.Committed(), ids, setFields, txn.txnId, store.codec, fault);
    assert ids == {} <==> ops == [];
    r := Finish(store, txn, fault);
  }

  /**
   An update sets the given fields in exactly the committed records its filter selects, and says how
   many there were. It succeeds iff none is selected, or the files do not fail and no new record is too
   large to log; otherwise nothing is committed. `ops` are its writes, in the order they were staged.
   */
  method ExecuteUpdate(store: DurableTransactionStore, filter: Ast, setFields: Record, num: NumberTest, fault: Fault)
    returns (r: Result<nat, WireError>, ghost ops: seq<WriteOp>)
    requires store.Valid() && store.wal.nextSequence + |store.Committed()| <= U64_MAX
    modifies store`entries, store`torn, store`indexed, store.manager, store.manager.repr, store.wal, store.indexes
    ensures store.Valid()
    ensures var st := old(store.Committed());
            var ids := MatchingIds(st, filter, num);
            var txnId := SaturatingSucc(old(store.manager.nextTxnId));
            && Upserts(ops, st, ids, setFields) && |ops| == |ids|
            && (r.Ok? <==> ids == {} || (!Strikes(fault, |ids|) && UpsertsFit(st, ids, setFields, txnId, store.codec)))
            && (ids == {} ==> Untouched(store, old(store.entries), old(store.torn)))
            && (ids != {} ==>
                  && r == Answer(LogOutcome(ops, txnId, store.codec, fault), |ids|)
                  && Logs(store, old(store.entries), old(store.torn), ops, txnId, fault))
            && (r.Ok? ==> r.value == |ids| && store.Committed() == Updated(st, ids, setFields))
    ensures r.Ok? ==> TextUpdated(old(store.Committed()), store.Committed(), filter, setFields)
    ensures r.Ok? && old(store.indexed) == old(store.Committed()) ==> store.indexed == store.Committed()
    ensures r.Err? ==> store.Committed() == old(store.Committed()) && store.indexed == old(store.indexed)
  {
    var txn, ids := BeginAndSelect(store, filter, num);
    var done;
    TextClauseUpdates(store.Committed(), ids, filter, setFields, num);
    done, ops := UpdateSelected(store, txn, ids, setFields, fault);
    return Rows(done, |ids|), ops;
  }

  /** When every write of a delete can be framed. */
  ghost predicate DeletesFit(ids: set<nat>, txnId: nat, codec: Codec) {
    forall id :: id in ids ==> Fits(Delete(id), txnId, codec)
  }

  lemma DeletesLogged(ops: seq<WriteOp>, ids: set<nat>, txnId: nat, codec: Codec, fault: Fault)
    requires Deletes(ops, ids)
    ensures LogOutcome(ops, txnId, codec, fault).Ok? <==> !Strikes(fault, |ops|) && DeletesFit(ids, txnId, codec)
  {
    if DeletesFit(ids, txnId, codec) {
      forall i | 0 <= i < |ops| ensures Fits(ops[i], txnId, codec) {
        assert ops[i] == Delete(ops[i].recordId);
      }
    } else {
      var id :| id in ids && !Fits(Delete(id), txnId, codec);
      assert Delete(id) in ops;
    }
  }

  method DeleteSelected(store: DurableTransactionStore, txn: Transaction, ids: set<nat>, fault: Fault)
    returns (r: Result<(), WireError>, ghost ops: seq<WriteOp>)
    requires store.Valid() && store.wal.nextSequence + |store.Committed()| <= U64_MAX
    requires txn.status == Active && txn.snapshotTs == store.manager.clockTs && txn.writeSet == []
    requires store.manager.horizon <= txn.snapshotTs
    requires StateAt(store.manager.history, txn.snapshotTs) == store.Committed()
    requires ids <= store.Committed().Keys
    modifies store`entries, store`torn, store`indexed, store.manager, store.manager.repr, store.wal, store.indexes, txn
    ensures store.Valid()
    ensures Deletes(ops, ids) && |ops| == |ids|
    ensures r.Ok? <==> ids == {} || (!Strikes(fault, |ids|) && DeletesFit(ids, txn.txnId, store.codec))
    ensures ids == {} ==> Untouched(store, old(store.entries), old(store.torn))
    ensures ids != {} ==>
              && r == Answer(LogOutcome(ops, txn.txnId, store.codec, fault), ())
              && Logs(store, old(store.entries), old(store.torn), ops, txn.txnId, fault)
    ensures store.Committed() == if r.Ok? then old(store.Committed()) - ids else old(store.Committed())
    ensures r.Ok? && old(store.indexed) == old(store.Committed()) ==> store.indexed == store.Committed()
    ensures r.Err? ==> store.indexed == old(store.indexed)
  {
    Ordering.SizeOfSubset(ids, store.Committed().Keys);
    StageDeletes(store.manager, txn, ids);
    ops := txn.writeSet;
    DeletesLogged(ops, ids, txn.txnId, store.codec, fault);
    assert ids == {} <==> ops == [];
    r := Finish(store, txn, fault);
  }

  /**
   A delete removes exactly the committed records its filter selects, and says how many there were.
   It succeeds iff none is selected, or the files do not fail and every deletion can be logged.
   */
  method ExecuteDelete(store: DurableTransactionStore, filter: Ast, num: NumberTest, fault: Fault)
    returns (r: Result<nat, WireError>, ghost ops: seq<WriteOp>)
    requires store.Valid() && store.wal.nextSequence + |store.Committed()| <= U64_MAX
    modifies store`entries, store`torn, store`indexed, store.manager, store.manager.repr, store.wal, store.indexes
    ensures store.Valid()
    ensures var st := old(store.Committed());
            var ids := MatchingIds(st, filter, num);
            var txnId := SaturatingSucc(old(store.manager.nextTxnId));
            && Deletes(ops, ids) && |ops| == |ids|
            && (r.Ok? <==> ids == {} || (!Strikes(fault, |ids|) && DeletesFit(ids, txnId, store.codec)))
            && (ids == {} ==> Untouched(store, old(store.entries), old(store.torn)))
            && (ids != {} ==>
                  && r == Answer(LogOutcome(ops, txnId, store.codec, fault), |ids|)
                  && Logs(store, old(store.entries), old(store.torn), ops, txnId, fault))
            && (r.Ok? ==> r.value == |ids| && store.Committed() == st - ids)
    ensures r.Ok? ==> TextDeleted(old(store.Committed()), store.Committed(), filter)
    ensures r.Ok? && old(store.indexed) == old(store.Committed()) ==> store.indexed == store.Committed()
    ensures r.Err? ==> store.Committed() == old(store.Committed()) && store.indexed == old(store.indexed)
  {
    var txn, ids := BeginAndSelect(store, filter, num);
    var done;
    TextClauseDeletes(store.Committed(), ids, filter, num);
    done, ops := DeleteSelected(store, txn, ids, fault);
    return Rows(done, |ids|), ops;
  }
}
