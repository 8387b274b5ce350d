/** The durable store: transactions over version chains, logged before they commit, with indexes kept up. */
module DurableStores {
  import opened Wrappers
  import opened Json
  import opened Bytes
  import opened Transactions
  import opened TransactionManagers
  import opened WriteAheadLog
  import opened Durability
  import opened Indexes
  import opened Query
  import IndexQueries

  datatype StoreError = TransactionFailed(txn: TxnError) | LogFailed(log: WalError) | StorageFailed | ConfigFailed

  /** Which fields are indexed, as the configuration file or the defaults have it. */
  datatype IndexConfig = IndexConfig(sortFields: set<string>, compositeDefs: set<Pair>, exactFields: set<string>)

  /** Where opening is refused: by the configuration file, then the log, then the strand files. */
  function Opening(file: bytes, hint: Option<nat>, config: Option<IndexConfig>, strandsOpen: bool)
    : (r: Result<Log, StoreError>)
    ensures r.Ok? <==> config.Some? && strandsOpen && Open(file, hint).Ok?
    ensures r == Err(ConfigFailed) <==> config.None?
    ensures r == Err(StorageFailed) <==> config.Some? && !strandsOpen && Open(file, hint).Ok?
  {
    if config.None? then Err(ConfigFailed)
    else
      match Open(file, hint)
      case Err(e) => Err(LogFailed(e))
      case Ok(log) => if strandsOpen then Ok(log) else Err(StorageFailed)
  }

  /** What logging a write set answers. */
  function LogOutcome(ops: seq<WriteOp>, txnId: nat, codec: Codec, fault: Fault): (r: Result<(), StoreError>)
    ensures r.Ok? <==> !Strikes(fault, |ops|) && forall i :: 0 <= i < |ops| ==> Fits(ops[i], txnId, codec)
    ensures r.Ok? ==> Reach(ops, txnId, codec, fault) == |ops|
  {
    var k := Fitting(ops, txnId, codec);
    if fault.StrandWrite? && fault.at < k then Err(StorageFailed)
    else if k < |ops| then Err(LogFailed(PayloadTooLarge(|codec.encode(PayloadOf(txnId, ops[k]))|)))
    else if fault.FlushOrSync? then Err(StorageFailed)
    else Ok(())
  }

  /** What a commit of this transaction answers. */
  function Outcome(db: Db, t: Txn, codec: Codec, fault: Fault): Result<nat, StoreError> {
    match CanCommit(db, t)
    case Err(e) => Err(TransactionFailed(e))
    case Ok(_) =>
      match LogOutcome(t.writeSet, t.txnId, codec, fault)
      case Err(e) => Err(e)
      case Ok(_) => Ok(SaturatingSucc(db.clock))
  }

  /** The operations it puts in the log on the way. */
  function Reached(db: Db, t: Txn, codec: Codec, fault: Fault): seq<WriteOp> {
    if CanCommit(db, t).Err? then [] else t.writeSet[..Reach(t.writeSet, t.txnId, codec, fault)]
  }

  /** An operation whose strand cannot be written is in the log by then, with all before it, and none after. */
  lemma StrandFailureIsLogged(ops: seq<WriteOp>, txnId: nat, codec: Codec, at: nat)
    requires at < |ops| && forall i :: 0 <= i <= at ==> Fits(ops[i], txnId, codec)
    ensures Reach(ops, txnId, codec, StrandWrite(at)) == at + 1
    ensures LogOutcome(ops, txnId, codec, StrandWrite(at)) == Err(StorageFailed)
  {
  }

  /** One too large to frame is not, nor any after it; all before it are. */
  lemma OversizeIsNotLogged(ops: seq<WriteOp>, txnId: nat, codec: Codec, at: nat)
    requires at < |ops| && !Fits(ops[at], txnId, codec) && forall i :: 0 <= i < at ==> Fits(ops[i], txnId, codec)
    ensures Reach(ops, txnId, codec, NoFault) == Reach(ops, txnId, codec, FlushOrSync) == at
    ensures LogOutcome(ops, txnId, codec, NoFault).Err? && LogOutcome(ops, txnId, codec, FlushOrSync).Err?
  {
  }

  /**
   A commit succeeds iff the transaction is active and meets no conflict, every operation of it can be
   framed, and the files do not fail; its timestamp is then the next one. Where it fails it is for the
   first of these, and only in the last two cases are operations of it in the log.
   */
  lemma OutcomeMeans(db: Db, t: Txn, codec: Codec, fault: Fault)
    ensures var r, reached := Outcome(db, t, codec, fault), Reached(db, t, codec, fault);
            var fit := forall i :: 0 <= i < |t.writeSet| ==> Fits(t.writeSet[i], t.txnId, codec);
            && (r.Ok? <==> t.status == Active && !Conflicts(db, t) && fit && !Strikes(fault, |t.writeSet|))
            && (r.Ok? ==> r.value == SaturatingSucc(db.clock) && reached == t.writeSet)
            && (r == Err(TransactionFailed(NotActive)) <==> t.status != Active)
            && (r == Err(TransactionFailed(WriteWriteConflict)) <==> t.status == Active && Conflicts(db, t))
            && (r.Err? && r.error.TransactionFailed? ==> reached == [])
            && (r == Err(StorageFailed) ==> fault != NoFault)
            && (r.Err? && r.error.LogFailed? ==> !fit && r.error.log.PayloadTooLarge? && r.error.log.size > U32_MAX)
            && reached <= t.writeSet
  {
  }

  lemma ReachedAll(db: Db, t: Txn, codec: Codec, fault: Fault)
    requires Outcome(db, t, codec, fault).Ok?
    ensures CanCommit(db, t).Ok? && Reached(db, t, codec, fault) == t.writeSet
  {
  }

  class DurableTransactionStore {
    const manager: TransactionManager
    const wal: Wal
    const indexes: SecondaryIndexes
    const codec: Codec

    /** The entries in the log file, and whether a failed commit has left operations in it. */
    ghost var entries: seq<WalEntry>
    ghost var torn: bool
    /** The bytes a crash before this opening left in front of everything appended since: up to seven. */
    ghost const stray: bytes
    ghost const strayAt: nat
    /** The records the indexes mirror: those of the commits they were told about. */
    ghost var indexed: State

    ghost function Committed(): State
      reads manager
    {
      Current(manager.history)
    }

    /** The log file: its entries, and the stray bytes among them. */
    ghost predicate Appended()
      reads this`entries, wal
    {
      Written(wal.Model(), entries, strayAt, stray)
    }

    /** What is in the log since this opening starts with itself shifted by the stray bytes: without any, always. */
    ghost predicate Unshifted()
      requires Appended()
      reads this`entries, wal
    {
      EncodeAll(entries[strayAt..]) <= stray + EncodeAll(entries[strayAt..])
    }

    /** The log holds the commits, and whatever failed commits have left in it. */
    ghost predicate Durable()
      reads this`entries, this`torn, manager, manager.repr, wal
    {
      && RoundTrips(codec)
      && manager.Valid()
      && Appended()
      && (!torn ==> Logged(entries, codec) == Flatten(manager.history))
    }

    ghost predicate Valid()
      reads this, manager, manager.repr, wal, indexes
    {
      Durable() && indexes.Mirror(indexed)
    }

    constructor (manager: TransactionManager, wal: Wal, indexes: SecondaryIndexes, codec: Codec,
                 ghost entries: seq<WalEntry>, ghost strayAt: nat, ghost stray: bytes)
      requires RoundTrips(codec) && manager.Valid() && Written(wal.Model(), entries, strayAt, stray)
      requires Logged(entries, codec) == Flatten(manager.history) && indexes.Mirror(Current(manager.history))
      ensures Valid() && this.manager == manager && this.wal == wal && this.indexes == indexes && this.codec == codec
      ensures !torn && indexed == Committed()
      ensures this.entries == entries && this.strayAt == strayAt && this.stray == stray
    {
      this.manager, this.wal, this.indexes, this.codec := manager, wal, indexes, codec;
      this.entries, this.strayAt, this.stray := entries, strayAt, stray;
      torn, indexed := false, Current(manager.history);
    }

    /** Replays every decodable entry as a transaction of its own; a log that cannot be read is refused. */
    static method ReplayWalToMvcc(wal: Wal, codec: Codec) returns (r: Result<TransactionManager, WalError>)
      requires |wal.file| >= WAL_HEADER_SIZE
      ensures r.Ok? <==> Parse(wal.file[WAL_HEADER_SIZE..]).Ok?
      ensures r.Err? ==> r.error == Parse(wal.file[WAL_HEADER_SIZE..]).error
      ensures r.Ok? ==>
                && fresh(r.value) && fresh(r.value.repr) && r.value.Valid()
                && Flatten(r.value.history) == Logged(Parse(wal.file[WAL_HEADER_SIZE..]).value, codec)
    {
      var read := wal.ReadAllEntries();
      if read.Err? {
        return Err(read.error);
      }
      var manager := new TransactionManager();
      ReplayEntries(manager, read.value, codec);
      return Ok(manager);
    }

    static method ReplayEntries(manager: TransactionManager, es: seq<WalEntry>, codec: Codec)
      requires manager.Valid() && manager.history == []
      modifies manager, manager.repr
      ensures manager.Valid() && fresh(manager.repr - old(manager.repr))
      ensures Flatten(manager.history) == Logged(es, codec)
    {
      for i := 0 to |es|
        invariant manager.Valid() && fresh(manager.repr - old(manager.repr))
        invariant Flatten(manager.history) == Logged(es[..i], codec)
      {
        LoggedAt(es, i, codec);
        var p := codec.decode(es[i].payload);
        if p.Some? {
          ApplyReplayedOp(manager, OpOf(p.value));
        }
      }
      assert es[..|es|] == es;
    }

    static method ApplyReplayedOp(manager: TransactionManager, op: WriteOp)
      requires manager.Valid()
      modifies manager, manager.repr
      ensures manager.Valid() && fresh(manager.repr - old(manager.repr))
      ensures Flatten(manager.history) == old(Flatten(manager.history)) + [op]
    {
      FreshNeverConflicts(manager.Model(), manager.history, manager.horizon, op);
      var txn := manager.Begin();
      manager.Write(txn, op);
      var ts := CommitPassed(manager, txn);
    }

    /**
     Opening replays whatever the log file is read as, and rebuilds the indexes from what it finds.
     `config` is none where the configuration file cannot be read or parsed.
     */
    static method Recover(file: bytes, hint: Option<nat>, codec: Codec, toJson: Value -> string,
                          config: Option<IndexConfig>, strandsOpen: bool)
      returns (r: Result<DurableTransactionStore, StoreError>)
      requires RoundTrips(codec)
      ensures r.Ok? <==> Opening(file, hint, config, strandsOpen).Ok?
      ensures r.Err? ==> r.error == Opening(file, hint, config, strandsOpen).error
      ensures r.Ok? ==>
                && r.value.Valid() && !r.value.torn && r.value.indexed == r.value.Committed()
                && r.value.wal.Model() == Open(file, hint).value && r.value.strayAt == |r.value.entries|
      ensures r.Ok? && file == [] ==> r.value.entries == []
      ensures r.Ok? && file != [] ==>
                |file| >= WAL_HEADER_SIZE && Parse(file[WAL_HEADER_SIZE..]) == Ok(r.value.entries)
      ensures r.Ok? ==> r.value.Committed() == ApplyAll(map[], Logged(r.value.entries, codec))
    {
      if config.None? {
        return Err(ConfigFailed);
      }
      var opening := Wal.OpenOrCreate(file, hint);
      if opening.Err? {
        return Err(LogFailed(opening.error));
      }
      if !strandsOpen {
        return Err(StorageFailed);
      }
      var wal := opening.value;
      ghost var entries, stray := OpenedIsWritten(file, hint);
      OpenedReads(file, hint, entries, stray);
      var replayed := ReplayWalToMvcc(wal, codec);
      var manager := replayed.value;
      CurrentIsFold(manager.history);
      var indexes := new SecondaryIndexes(toJson, config.value.sortFields, config.value.compositeDefs,
                                          config.value.exactFields);
      var visible := FreshView(manager);
      indexes.Rebuild(visible);
      var store := new DurableTransactionStore(manager, wal, indexes, codec, entries, |entries|, stray);
      return Ok(store);
    }

    /** `begin` followed by `visible_records`: the committed state. */
    static method FreshView(manager: TransactionManager) returns (visible: map<nat, Record>)
      requires manager.Valid()
      modifies manager
      ensures manager.Valid() && manager.history == old(manager.history) && manager.repr == old(manager.repr)
      ensures manager.horizon == old(manager.horizon) && manager.clockTs == old(manager.clockTs)
      ensures visible == Current(manager.history)
    {
      var txn := manager.Begin();
      FreshSnapshotSeesCurrent(manager.history, txn.snapshotTs);
      visible := manager.VisibleRecords(txn);
    }

    method Begin() returns (txn: Transaction)
      requires Valid()
      modifies manager
      ensures Valid() && fresh(txn) && manager.history == old(manager.history)
      ensures manager.repr == old(manager.repr) && manager.horizon <= txn.snapshotTs
      ensures (manager.Model(), txn.View()) == BeginTxn(old(manager.Model()))
    {
      txn := manager.Begin();
    }

    /** One operation of a write set: encoded, framed, appended, and its strand written. */
    method LogOne(op: WriteOp, txnId: nat, strandFails: bool) returns (r: Result<(), StoreError>)
      requires Appended() && RoundTrips(codec) && wal.nextSequence <= U64_MAX
      modifies wal, this`entries
      ensures Appended()
      ensures r.Ok? <==> Fits(op, txnId, codec) && !strandFails
      ensures Fits(op, txnId, codec) ==>
                && Logged(entries, codec) == Logged(old(entries), codec) + [op]
                && |entries| == |old(entries)| + 1 && entries[..|old(entries)|] == old(entries)
                && wal.nextSequence == old(wal.nextSequence) + 1
                && (r.Err? ==> r.error == StorageFailed)
      ensures !Fits(op, txnId, codec) ==>
                && entries == old(entries) && wal.Model() == old(wal.Model())
                && r == Err(LogFailed(PayloadTooLarge(|codec.encode(PayloadOf(txnId, op))|)))
    {
      var payload := codec.encode(PayloadOf(txnId, op));
      ghost var log := wal.Model();
      var appended := wal.AppendPayload(payload);
      if appended.Err? {
        return Err(LogFailed(appended.error));
      }
      AppendWritten(log, entries, strayAt, stray, payload);
      LoggedSnoc(entries, WalEntry(log.next, payload), codec);
      entries := entries + [WalEntry(log.next, payload)];
      if strandFails {
        return Err(StorageFailed);
      }
      return Ok(());
    }

    /** The loop that logs a write set, up to the first operation too large to frame or whose strand is not written. */
    method LogWrites(ops: seq<WriteOp>, txnId: nat, fault: Fault) returns (r: Result<(), StoreError>)
      requires Appended() && RoundTrips(codec)
      requires wal.nextSequence + |ops| <= U64_MAX
      modifies wal, this`entries
      ensures Appended() && Grown(old(entries), ops[..Reach(ops, txnId, codec, fault)])
      ensures r == LogOutcome(ops, txnId, codec, fault)
      ensures Reach(ops, txnId, codec, fault) == 0 ==> wal.Model() == old(wal.Model())
    {
      ghost var was := entries;
      GrownNone(was);
      for i := 0 to |ops|
        invariant i <= Fitting(ops, txnId, codec) && Appended() && wal.nextSequence + |ops| - i <= U64_MAX
        invariant fault.StrandWrite? ==> i <= fault.at
        invariant Grown(was, ops[..i])
        invariant i == 0 ==> wal.Model() == old(wal.Model())
      {
        ghost var before := entries;
        var one := LogOne(ops[i], txnId, fault == StrandWrite(i));
        if Fits(ops[i], txnId, codec) {
          GrownMore(was, before, ops, i);
        }
        if one.Err? {
          return Err(one.error);
        }
      }
      return if fault.FlushOrSync? then Err(StorageFailed) else Ok(());
    }

    /** The log has grown by one entry for each of these operations. */
    ghost predicate Grown(was: seq<WalEntry>, ops: seq<WriteOp>)
      reads this`entries
    {
      && |entries| == |was| + |ops| && entries[..|was|] == was
      && Logged(entries, codec) == Logged(was, codec) + ops
    }

    lemma GrownNone(was: seq<WalEntry>)
      requires entries == was
      ensures forall ops: seq<WriteOp> :: Grown(was, ops[..0])
    {
      forall ops: seq<WriteOp> ensures Grown(was, ops[..0]) {
        assert was[..|was|] == was && Logged(was, codec) + ops[..0] == Logged(was, codec);
      }
    }

    lemma GrownMore(was: seq<WalEntry>, before: seq<WalEntry>, ops: seq<WriteOp>, i: nat)
      requires i < |ops| && |before| == |was| + i && before[..|was|] == was
      requires Logged(before, codec) == Logged(was, codec) + ops[..i]
      requires |entries| == |before| + 1 && entries[..|before|] == before
      requires Logged(entries, codec) == Logged(before, codec) + [ops[i]]
      ensures Grown(was, ops[..i + 1])
    {
      assert entries[..|was|] == before[..|was|];
      TakeOneMore(Logged(was, codec), ops, i);
    }

    /** A write set that does not get through whole tears the log, unless none of it got in. */
    method LogPending(ops: seq<WriteOp>, txnId: nat, fault: Fault, ghost committed: seq<WriteOp>)
      returns (r: Result<(), StoreError>)
      requires Appended() && RoundTrips(codec) && wal.nextSequence + |ops| <= U64_MAX
      requires !torn ==> Logged(entries, codec) == committed
      modifies wal, this`entries, this`torn
      ensures Appended() && Grown(old(entries), ops[..Reach(ops, txnId, codec, fault)])
      ensures r == LogOutcome(ops, txnId, codec, fault)
      ensures Reach(ops, txnId, codec, fault) == 0 ==> wal.Model() == old(wal.Model())
      ensures torn == (old(torn) || (r.Err? && Reach(ops, txnId, codec, fault) > 0))
      ensures r.Err? && !torn ==> Logged(entries, codec) == committed
    {
      r := LogWrites(ops, txnId, fault);
      torn := torn || (r.Err? && Reach(ops, txnId, codec, fault) > 0);
    }

    /** The conflict check, then the log; a commit that fails here leaves the store durable. */
    method LogCommit(txn: Transaction, fault: Fault) returns (r: Result<(), StoreError>)
      requires Durable() && wal.nextSequence + |txn.writeSet| <= U64_MAX
      modifies wal, this`entries, this`torn
      ensures Appended() && Grown(old(entries), Reached(old(manager.Model()), old(txn.View()), codec, fault))
      ensures r.Ok? <==> Outcome(old(manager.Model()), old(txn.View()), codec, fault).Ok?
      ensures r.Err? ==> r.error == Outcome(old(manager.Model()), old(txn.View()), codec, fault).error
      ensures torn == (old(torn) || (r.Err? && Reached(old(manager.Model()), old(txn.View()), codec, fault) != []))
      ensures Reached(old(manager.Model()), old(txn.View()), codec, fault) == [] ==> wal.Model() == old(wal.Model())
      ensures r.Err? ==> Durable()
    {
      var check := manager.CheckCommit(txn);
      if check.Err? {
        GrownNone(entries);
        return Err(TransactionFailed(check.error));
      }
      r := LogPending(txn.writeSet, txn.txnId, fault, Flatten(manager.history));
    }

    /** The versions of a commit that is past its checks are installed. */
    static method CommitPassed(manager: TransactionManager, txn: Transaction) returns (ts: nat)
      requires manager.Valid() && CanCommit(manager.Model(), txn.View()).Ok?
      modifies manager, manager.repr, txn
      ensures manager.Valid() && fresh(manager.repr - old(manager.repr))
      ensures ts == SaturatingSucc(old(manager.clockTs))
      ensures Current(manager.history) == ApplyAll(old(Current(manager.history)), old(txn.writeSet))
      ensures Flatten(manager.history) == old(Flatten(manager.history)) + old(txn.writeSet)
    {
      ghost var h, t := manager.history, txn.View();
      var committed := manager.Commit(txn);
      HistorySnoc(h, CommitOf(t, committed.value));
      return committed.value;
    }

    /**
     A commit logs before it commits. A conflict leaves everything as it was; an operation too large
     for the log, or a failure of the files, fails the commit after operations of it have been logged.
     */
    method CommitUnindexed(txn: Transaction, fault: Fault) returns (r: Result<nat, StoreError>)
      requires Durable() && wal.nextSequence + |txn.writeSet| <= U64_MAX
      modifies this`entries, this`torn, manager, manager.repr, wal, txn
      ensures Durable() && fresh(manager.repr - old(manager.repr))
      ensures r == Outcome(old(manager.Model()), old(txn.View()), codec, fault)
      ensures Grown(old(entries), Reached(old(manager.Model()), old(txn.View()), codec, fault))
      ensures torn == (old(torn) || (r.Err? && Reached(old(manager.Model()), old(txn.View()), codec, fault) != []))
      ensures Reached(old(manager.Model()), old(txn.View()), codec, fault) == [] ==> wal.Model() == old(wal.Model())
      ensures r.Err? ==> manager.Model() == old(manager.Model()) && txn.View() == old(txn.View())
      ensures Committed() == if r.Ok? then ApplyAll(old(Committed()), old(txn.writeSet)) else old(Committed())
    {
      ghost var db, t := manager.Model(), txn.View();
      var logged := LogCommit(txn, fault);
      assert manager.Model() == db && txn.View() == t && manager.Valid();
      if logged.Err? {
        return Err(logged.error);
      }
      ReachedAll(db, t, codec, fault);
      var ts := CommitPassed(manager, txn);
      return Ok(ts);
    }

    /** A committed write set, told to the indexes. */
    method ApplySortIndexWrites(ops: seq<WriteOp>)
      requires indexes.Mirror(indexed)
      modifies indexes, this`indexed
      ensures indexes.Mirror(indexed) && indexed == ApplyAll(old(indexed), ops)
    {
      indexes.ApplyWrites(ops, indexed);
      indexed := ApplyAll(indexed, ops);
    }

    method CommitInner(txn: Transaction, applyIncrementalIndexes: bool, fault: Fault)
      returns (r: Result<nat, StoreError>)
      requires Valid() && wal.nextSequence + |txn.writeSet| <= U64_MAX
      modifies this`entries, this`torn, this`indexed, manager, manager.repr, wal, indexes, txn
      ensures Valid() && fresh(manager.repr - old(manager.repr))
      ensures r == Outcome(old(manager.Model()), old(txn.View()), codec, fault)
      ensures Grown(old(entries), Reached(old(manager.Model()), old(txn.View()), codec, fault))
      ensures torn == (old(torn) || (r.Err? && Reached(old(manager.Model()), old(txn.View()), codec, fault) != []))
      ensures Reached(old(manager.Model()), old(txn.View()), codec, fault) == [] ==> wal.Model() == old(wal.Model())
      ensures r.Err? ==> manager.Model() == old(manager.Model()) && txn.View() == old(txn.View())
      ensures Committed() == if r.Ok? then ApplyAll(old(Committed()), old(txn.writeSet)) else old(Committed())
      ensures indexed == if r.Ok? && applyIncrementalIndexes then ApplyAll(old(indexed), old(txn.writeSet))
                  else old(indexed)
    {
      var pending := txn.writeSet;
      r := CommitUnindexed(txn, fault);
      if r.Ok? && applyIncrementalIndexes {
        ApplySortIndexWrites(pending);
      }
    }

    /** A rollback touches neither the log nor the indexes. */
    method Rollback(txn: Transaction) returns (r: Result<(), TxnError>)
      requires Valid()
      modifies manager, txn
      ensures Valid() && Committed() == old(Committed()) && manager.repr == old(manager.repr)
      ensures (manager.Model(), txn.View(), r) == RollbackTxn(old(manager.Model()), old(txn.View()))
    {
      r := manager.Rollback(txn);
    }

    /** Compaction forgets versions, and neither commits nor log entries. */
    method RunVersionCompaction(minKeep: nat)
      requires Valid()
      modifies manager, manager.repr
      ensures Valid() && Committed() == old(Committed()) && manager.repr == old(manager.repr)
      ensures exists oldest :: IsBoundary(old(manager.Model()), oldest)
                && manager.Model() == CompactDb(old(manager.Model()), oldest, Max(minKeep, 1))
    {
      var oldest := manager.CompactVersionsWithFloor(Max(minKeep, 1));
    }

    /** Rebuilding brings the indexes back in step with the committed state. */
    method RebuildSortIndexes()
      requires Valid()
      modifies manager, indexes, this`indexed
      ensures Valid() && Committed() == old(Committed()) && manager.repr == old(manager.repr)
      ensures indexed == Committed()
    {
      var visible := FreshView(manager);
      indexes.Rebuild(visible);
      indexed := visible;
    }

    /**
     A query in a transaction of its own, where the ordered index is the path taken. The index gives
     the first rows in key order, and the last step sorts those rows again by the text of their keys:
     the client gets the same rows, in the index's order iff the texts are in that order too. They are
     rows of the state the indexes mirror, which is the committed one unless a commit has skipped the
     indexes since the last rebuild.
     */
    method OrderedQuery(ast: Ast, num: NumberTest, debug: Value -> string) returns (rows: Option<seq<Record>>)
      requires Valid()
      modifies manager
      ensures Valid() && Committed() == old(Committed()) && manager.repr == old(manager.repr)
      ensures rows.Some? ==> IndexQueries.Ordered(ast)
      ensures rows.Some? ==> Resorted(rows.value, IndexQueries.ListedRows(indexed, Committed(), ast, num), ast, debug)
      ensures rows.Some? && indexed == Committed() ==>
                Resorted(rows.value, IndexQueries.TopRows(Committed(), ast, num), ast, debug)
      ensures rows.None? && IndexQueries.Ordered(ast) && ast.orderBy.value.field in indexes.sortFields ==>
                KeysOf(indexed, ast.orderBy.value.field) == map[]
    {
      var view := FreshView(manager);
      rows := IndexQueries.OrderedQueryRows(indexes, view, ast, num, debug, indexed);
    }
  }

  /**
   What a crash between operations loses: nothing, iff what was appended since this opening is not
   shifted by stray bytes that were in front of it. The log file is then read and opened as it was, and,
   unless a failed commit has left operations in it, replays to the committed state.
   */
  lemma CrashLosesNothingIff(store: DurableTransactionStore)
    requires store.Valid()
    ensures var log := store.wal.Model();
            && |log.file| >= WAL_HEADER_SIZE
            && (Parse(log.file[WAL_HEADER_SIZE..]) == Ok(store.entries) <==> store.Unshifted())
            && (store.Unshifted() ==> Open(log.file, log.hint) == Ok(log))
            && (store.Unshifted() && !store.torn ==>
                  ApplyAll(map[], Logged(Parse(log.file[WAL_HEADER_SIZE..]).value, store.codec)) == store.Committed())
  {
    var log := store.wal.Model();
    WrittenReadsBackIff(log, store.entries, store.strayAt, store.stray);
    if store.Unshifted() {
      ReadBackReopens(log, store.entries, store.strayAt, store.stray);
      CurrentIsFold(store.manager.history);
    }
  }

  /**
   When that is: always for a store opened on a log without stray bytes, or that has logged nothing
   since. Never for one that has, with `b` stray bytes in front, as long as its sequence numbers leave
   the shifted-out bytes zero, that is below `256^(8-b)`: what is read back is then not what was logged.
   */
  lemma UnshiftedWhen(store: DurableTransactionStore)
    requires store.Valid()
    ensures store.stray == [] || store.strayAt == |store.entries| ==> store.Unshifted()
    ensures store.stray != [] && store.strayAt < |store.entries| ==>
              1 <= store.entries[store.strayAt].sequence < Pow256(8 - |store.stray|) ==> !store.Unshifted()
  {
    ShiftCases(store.entries, store.strayAt, store.stray);
  }

  /** Without stray bytes the log file is header and entries, as a crash inside a commit finds it. */
  lemma WholeFile(store: DurableTransactionStore)
    requires store.Appended() && store.stray == []
    ensures AllStorable(store.entries) && store.wal.file == HEADER + EncodeAll(store.entries)
  {
    WrittenWhole(store.wal.Model(), store.entries, store.strayAt);
  }

  /**
   After a commit that failed past its conflict check, the operations that reached the log belong to no
   commit. A store that has made these commits since still recovers its committed state iff the last of
   them on each record that none of these commits wrote says what was committed before.
   */
  lemma FailedCommitIsHarmlessIff(store: DurableTransactionStore, before: seq<Commit>, reached: seq<WriteOp>,
                                  since: seq<Commit>)
    requires store.Valid() && store.manager.history == before + since
    requires Logged(store.entries, store.codec) == Flatten(before) + reached + Flatten(since)
    ensures ApplyAll(map[], Logged(store.entries, store.codec)) == store.Committed()
            <==> forall rid :: Wrote(reached, rid) && !Wrote(Flatten(since), rid) ==>
                   LastWrite(reached, rid).value.Outcome() == Lookup(Current(before), rid)
  {
    LaterCommits(before, since);
    TornIsHarmlessIff(before, reached, Flatten(since));
  }

  lemma TakeOneMore(was: seq<WriteOp>, ops: seq<WriteOp>, i: nat)
    requires i < |ops|
    ensures was + ops[..i] + [ops[i]] == was + ops[..i + 1]
  {
  }
}
