/**
 The transaction manager as a function on values: one function per operation, the commit history
 it is meant to represent, and the refinement between the two.
 */
module Transactions {
  import opened Wrappers
  import opened Json
  import opened Mvcc

  datatype TxnStatus = Active | Committed | RolledBack

  datatype WriteOp =
    | Upsert(recordId: nat, record: Record)
    | Delete(recordId: nat)
  {
    function Outcome(): Option<Record> {
      if Upsert? then Some(record) else None
    }
  }

  datatype TxnError = NotActive | WriteWriteConflict

  datatype Txn = Txn(txnId: nat, snapshotTs: nat, writeSet: seq<WriteOp>, status: TxnStatus)

  datatype Db = Db(chains: map<nat, seq<VersionEntry>>, active: map<nat, nat>, nextTxnId: nat, clock: nat)

  const EMPTY_DB := Db(map[], map[], 0, 0)

  // ----- The operations --------------------------------------------------------------------

  function ChainOf(chains: map<nat, seq<VersionEntry>>, rid: nat): seq<VersionEntry> {
    if rid in chains then chains[rid] else []
  }

  function BeginTxn(db: Db): (Db, Txn) {
    var id := SaturatingSucc(db.nextTxnId);
    (db.(nextTxnId := id, active := db.active[id := db.clock]), Txn(id, db.clock, [], Active))
  }

  /** The transaction's own last write to the record, when it has one. */
  function LastWrite(ops: seq<WriteOp>, rid: nat): Option<WriteOp> {
    if ops == [] then None
    else if ops[|ops| - 1].recordId == rid then Some(ops[|ops| - 1])
    else LastWrite(ops[..|ops| - 1], rid)
  }

  function ReadTxn(db: Db, t: Txn, rid: nat): Option<Record> {
    match LastWrite(t.writeSet, rid)
    case Some(op) => op.Outcome()
    case None => VisibleAt(ChainOf(db.chains, rid), t.snapshotTs)
  }

  /** The write set touches a record whose newest version is after the snapshot. */
  predicate Conflicts(db: Db, t: Txn) {
    exists i | 0 <= i < |t.writeSet| ::
      && t.writeSet[i].recordId in db.chains
      && var latest := LatestTs(db.chains[t.writeSet[i].recordId]);
         latest.Some? && latest.value > t.snapshotTs
  }

  function CanCommit(db: Db, t: Txn): Result<(), TxnError> {
    if t.status != Active then Err(NotActive)
    else if Conflicts(db, t) then Err(WriteWriteConflict)
    else Ok(())
  }

  /** The write set applied in order, every version stamped with the commit timestamp. */
  function Install(chains: map<nat, seq<VersionEntry>>, ops: seq<WriteOp>, txnId: nat, ts: nat)
    : map<nat, seq<VersionEntry>>
  {
    if ops == [] then chains
    else
      var before := Install(chains, ops[..|ops| - 1], txnId, ts);
      var op := ops[|ops| - 1];
      before[op.recordId := Inserted(ChainOf(before, op.recordId), VersionEntry(txnId, ts, op.Outcome()))]
  }

  function CommitTxn(db: Db, t: Txn): (Db, Txn, Result<nat, TxnError>) {
    match CanCommit(db, t)
    case Err(e) => (db, t, Err(e))
    case Ok(_) =>
      var ts := SaturatingSucc(db.clock);
      (db.(clock := ts, chains := Install(db.chains, t.writeSet, t.txnId, ts), active := db.active - {t.txnId}),
       t.(writeSet := [], status := Committed),
       Ok(ts))
  }

  function RollbackTxn(db: Db, t: Txn): (Db, Txn, Result<(), TxnError>) {
    if t.status != Active then (db, t, Err(NotActive))
    else (db.(active := db.active - {t.txnId}), t.(writeSet := [], status := RolledBack), Ok(()))
  }

  /** The boundary compaction works with: the oldest active snapshot, or `u64::MAX` without one. */
  ghost predicate IsBoundary(db: Db, oldest: nat) {
    if db.active == map[] then oldest == U64_MAX
    else oldest in db.active.Values && forall id :: id in db.active ==> oldest <= db.active[id]
  }

  function CompactAll(chains: map<nat, seq<VersionEntry>>, oldest: nat, minKeep: nat): map<nat, seq<VersionEntry>> {
    map rid | rid in chains :: Compacted(chains[rid], oldest, minKeep)
  }

  function CompactDb(db: Db, oldest: nat, minKeep: nat): Db {
    db.(chains := CompactAll(db.chains, oldest, minKeep))
  }

  // ----- The commit history ----------------------------------------------------------------

  datatype Commit = Commit(txnId: nat, snapshotTs: nat, ts: nat, writes: seq<WriteOp>)

  type State = map<nat, Record>

  function Lookup(st: State, rid: nat): Option<Record> {
    if rid in st then Some(st[rid]) else None
  }

  lemma SameLookups(a: State, b: State)
    ensures a == b <==> forall rid :: Lookup(a, rid) == Lookup(b, rid)
  {
    if forall rid :: Lookup(a, rid) == Lookup(b, rid) {
      forall rid ensures rid in a <==> rid in b {
        assert Lookup(a, rid) == Lookup(b, rid);
      }
      assert a.Keys == b.Keys;
      forall rid | rid in a ensures a[rid] == b[rid] {
        assert Lookup(a, rid) == Lookup(b, rid);
      }
    }
  }

  function Apply(st: State, op: WriteOp): State {
    match op
    case Upsert(rid, record) => st[rid := record]
    case Delete(rid) => st - {rid}
  }

  function ApplyAll(st: State, ops: seq<WriteOp>): State {
    if ops == [] then st else Apply(ApplyAll(st, ops[..|ops| - 1]), ops[|ops| - 1])
  }

  /** The database a snapshot is meant to see: the fold of the commits at or before it. */
  function StateAt(h: seq<Commit>, snapshot: nat): State {
    if h == [] then map[]
    else
      var before := StateAt(h[..|h| - 1], snapshot);
      if h[|h| - 1].ts <= snapshot then ApplyAll(before, h[|h| - 1].writes) else before
  }

  /** The fold of the whole history. */
  function Current(h: seq<Commit>): State {
    if h == [] then map[] else ApplyAll(Current(h[..|h| - 1]), h[|h| - 1].writes)
  }

  predicate Wrote(ops: seq<WriteOp>, rid: nat) {
    LastWrite(ops, rid).Some?
  }

  function LastCommitTs(h: seq<Commit>, rid: nat): Option<nat> {
    if h == [] then None
    else if Wrote(h[|h| - 1].writes, rid) then Some(h[|h| - 1].ts)
    else LastCommitTs(h[..|h| - 1], rid)
  }

  /** Of two commits that wrote a common record, the later one had seen the earlier one. */
  ghost predicate FirstCommitterWins(h: seq<Commit>) {
    forall i, j, rid :: 0 <= i < j < |h| && Wrote(h[i].writes, rid) && Wrote(h[j].writes, rid) ==>
      h[i].ts <= h[j].snapshotTs
  }

  // ----- The refinement --------------------------------------------------------------------

  ghost predicate SortedUpTo(vs: seq<VersionEntry>, ts: nat) {
    Sorted(vs) && forall i :: 0 <= i < |vs| ==> vs[i].ts <= ts
  }

  ghost predicate ChainsOk(db: Db) {
    db.clock <= U64_MAX &&
    forall rid :: rid in db.chains ==> SortedUpTo(db.chains[rid], db.clock) && db.chains[rid] != []
  }

  /** Chains and history agree for every snapshot from `horizon` on; compaction moves `horizon`. */
  ghost predicate Agrees(db: Db, h: seq<Commit>, horizon: nat) {
    && (forall rid, s :: horizon <= s ==> VisibleAt(ChainOf(db.chains, rid), s) == Lookup(StateAt(h, s), rid))
    && (forall rid :: LatestTs(ChainOf(db.chains, rid)) == LastCommitTs(h, rid))
  }

  ghost predicate HistoryOk(h: seq<Commit>, clock: nat) {
    && (forall i :: 0 <= i < |h| ==> h[i].ts <= clock)
    && (forall i, j :: 0 <= i < j < |h| ==> h[i].ts <= h[j].ts)
    && FirstCommitterWins(h)
  }

  ghost predicate Refines(db: Db, h: seq<Commit>, horizon: nat) {
    && ChainsOk(db)
    && Agrees(db, h, horizon)
    && HistoryOk(h, db.clock)
    && horizon <= db.clock
    && forall id :: id in db.active ==> horizon <= db.active[id] <= db.clock
  }

  /** Where the horizon stands after compaction up to `oldest`. */
  function HorizonAfter(db: Db, horizon: nat, oldest: nat): nat {
    Max(horizon, Min(oldest, db.clock))
  }

  lemma {:induction false} WroteMeaning(ops: seq<WriteOp>, rid: nat)
    ensures Wrote(ops, rid) <==> exists i :: 0 <= i < |ops| && ops[i].recordId == rid
  {
    if ops == [] {
    } else {
      WroteMeaning(ops[..|ops| - 1], rid);
    }
  }

  /** Folding a write set leaves each record with its last write, or as it was. */
  lemma {:induction false} ApplyAllLastWriteWins(st: State, ops: seq<WriteOp>, rid: nat)
    ensures Lookup(ApplyAll(st, ops), rid) ==
            match LastWrite(ops, rid)
            case Some(op) => op.Outcome()
            case None => Lookup(st, rid)
  {
    if ops == [] {
    } else {
      ApplyAllLastWriteWins(st, ops[..|ops| - 1], rid);
    }
  }

  /** The versions a write set leaves on one record's chain. */
  function Stamped(ops: seq<WriteOp>, rid: nat, txnId: nat, ts: nat): (r: seq<VersionEntry>)
    ensures forall i :: 0 <= i < |r| ==> r[i].ts == ts
    ensures r == [] <==> !Wrote(ops, rid)
    ensures r != [] ==> r[|r| - 1].record == LastWrite(ops, rid).value.Outcome()
  {
    if ops == [] then []
    else
      var before := Stamped(ops[..|ops| - 1], rid, txnId, ts);
      var op := ops[|ops| - 1];
      if op.recordId == rid then before + [VersionEntry(txnId, ts, op.Outcome())] else before
  }

  lemma AppendKeepsOrder(vs: seq<VersionEntry>, new_: seq<VersionEntry>, ts: nat)
    requires SortedUpTo(vs, ts) && forall i :: 0 <= i < |new_| ==> new_[i].ts == ts
    ensures SortedUpTo(vs + new_, ts)
  {
  }

  lemma InsertAppends(vs: seq<VersionEntry>, new_: seq<VersionEntry>, e: VersionEntry)
    requires SortedUpTo(vs, e.ts) && forall i :: 0 <= i < |new_| ==> new_[i].ts == e.ts
    ensures Inserted(vs + new_, e) == vs + (new_ + [e])
  {
    AppendKeepsOrder(vs, new_, e.ts);
    InsertNewest(vs + new_, e);
  }

  lemma {:induction false} InstallKeys(chains: map<nat, seq<VersionEntry>>, ops: seq<WriteOp>, txnId: nat, ts: nat,
                                       rid: nat)
    ensures rid in Install(chains, ops, txnId, ts) <==> rid in chains || Wrote(ops, rid)
  {
    if ops == [] {
    } else {
      InstallKeys(chains, ops[..|ops| - 1], txnId, ts, rid);
    }
  }

  /** Installing a write set at a timestamp no older than a chain's versions appends to the chain. */
  lemma {:induction false} InstallAppends(chains: map<nat, seq<VersionEntry>>, ops: seq<WriteOp>, txnId: nat, ts: nat,
                                          rid: nat)
    requires SortedUpTo(ChainOf(chains, rid), ts)
    ensures ChainOf(Install(chains, ops, txnId, ts), rid) == ChainOf(chains, rid) + Stamped(ops, rid, txnId, ts)
  {
    if ops == [] {
    } else {
      var n := |ops| - 1;
      InstallAppends(chains, ops[..n], txnId, ts, rid);
      if ops[n].recordId == rid {
        InsertAppends(ChainOf(chains, rid), Stamped(ops[..n], rid, txnId, ts),
                      VersionEntry(txnId, ts, ops[n].Outcome()));
      }
    }
  }

  ghost predicate AllSorted(chains: map<nat, seq<VersionEntry>>) {
    forall rid :: rid in chains ==> Sorted(chains[rid])
  }

  lemma {:induction false} InstallKeepsSorted(chains: map<nat, seq<VersionEntry>>, ops: seq<WriteOp>, txnId: nat,
                                              ts: nat)
    requires AllSorted(chains)
    ensures AllSorted(Install(chains, ops, txnId, ts))
  {
    if ops == [] {
    } else {
      var before, op := Install(chains, ops[..|ops| - 1], txnId, ts), ops[|ops| - 1];
      InstallKeepsSorted(chains, ops[..|ops| - 1], txnId, ts);
      InsertedSorted(ChainOf(before, op.recordId), VersionEntry(txnId, ts, op.Outcome()));
    }
  }

  /** A snapshot from `ts` on sees the last appended version; an earlier one sees no change. */
  lemma {:induction false} VisibleAfterAppend(was: seq<VersionEntry>, new_: seq<VersionEntry>, ts: nat, s: nat)
    requires forall i :: 0 <= i < |new_| ==> new_[i].ts == ts
    ensures VisibleAt(was + new_, s) ==
            if new_ != [] && ts <= s then new_[|new_| - 1].record else VisibleAt(was, s)
  {
    if new_ == [] {
      assert was + new_ == was;
    } else {
      var n := |new_| - 1;
      assert (was + new_)[..|was + new_| - 1] == was + new_[..n];
      VisibleAfterAppend(was, new_[..n], ts, s);
    }
  }

  // ----- Each operation keeps the refinement -----------------------------------------------

  lemma BeginRefines(db: Db, h: seq<Commit>, horizon: nat)
    requires Refines(db, h, horizon)
    ensures Refines(BeginTxn(db).0, h, horizon)
  {
  }

  lemma RollbackRefines(db: Db, h: seq<Commit>, horizon: nat, t: Txn)
    requires Refines(db, h, horizon)
    ensures Refines(RollbackTxn(db, t).0, h, horizon)
  {
  }

  /** The conflict check is exact: it rejects iff some committed write to the write set is newer. */
  lemma ConflictIsExact(db: Db, h: seq<Commit>, horizon: nat, t: Txn)
    requires Refines(db, h, horizon)
    ensures Conflicts(db, t) <==>
            exists i, rid :: 0 <= i < |h| && Wrote(h[i].writes, rid) && Wrote(t.writeSet, rid) && h[i].ts > t.snapshotTs
  {
    if Conflicts(db, t) {
      var k :| 0 <= k < |t.writeSet| && t.writeSet[k].recordId in db.chains
            && LatestTs(db.chains[t.writeSet[k].recordId]).Some?
            && LatestTs(db.chains[t.writeSet[k].recordId]).value > t.snapshotTs;
      var rid := t.writeSet[k].recordId;
      assert LatestTs(ChainOf(db.chains, rid)) == LastCommitTs(h, rid);
      var i := LastCommitIndex(h, rid);
      WroteMeaning(t.writeSet, rid);
      assert Wrote(h[i].writes, rid) && Wrote(t.writeSet, rid) && h[i].ts > t.snapshotTs;
    }
    if i, rid :| 0 <= i < |h| && Wrote(h[i].writes, rid) && Wrote(t.writeSet, rid) && h[i].ts > t.snapshotTs {
      WroteMeaning(t.writeSet, rid);
      var k :| 0 <= k < |t.writeSet| && t.writeSet[k].recordId == rid;
      assert LatestTs(ChainOf(db.chains, rid)) == LastCommitTs(h, rid);
      LastCommitTsIsNewest(h, rid, i);
    }
  }

  lemma {:induction false} LastCommitIndex(h: seq<Commit>, rid: nat) returns (i: nat)
    requires LastCommitTs(h, rid).Some?
    ensures i < |h| && Wrote(h[i].writes, rid) && h[i].ts == LastCommitTs(h, rid).value
  {
    if Wrote(h[|h| - 1].writes, rid) {
      i := |h| - 1;
    } else {
      i := LastCommitIndex(h[..|h| - 1], rid);
    }
  }

  lemma {:induction false} LastCommitTsIsNewest(h: seq<Commit>, rid: nat, i: nat)
    requires i < |h| && Wrote(h[i].writes, rid)
    requires forall j, k :: 0 <= j < k < |h| ==> h[j].ts <= h[k].ts
    ensures LastCommitTs(h, rid).Some? && h[i].ts <= LastCommitTs(h, rid).value
  {
    if !Wrote(h[|h| - 1].writes, rid) {
      LastCommitTsIsNewest(h[..|h| - 1], rid, i);
    }
  }

  function CommitOf(t: Txn, ts: nat): Commit {
    Commit(t.txnId, t.snapshotTs, ts, t.writeSet)
  }

  lemma CommitAgrees(db: Db, h: seq<Commit>, horizon: nat, t: Txn)
    requires Refines(db, h, horizon) && CanCommit(db, t).Ok?
    ensures var ts := SaturatingSucc(db.clock);
            Agrees(CommitTxn(db, t).0, h + [CommitOf(t, ts)], horizon)
  {
    var ts := SaturatingSucc(db.clock);
    var db' := CommitTxn(db, t).0;
    var h' := h + [CommitOf(t, ts)];
    assert h'[..|h'| - 1] == h;
    forall rid, s: nat | horizon <= s
      ensures VisibleAt(ChainOf(db'.chains, rid), s) == Lookup(StateAt(h', s), rid)
    {
      InstallAppends(db.chains, t.writeSet, t.txnId, ts, rid);
      VisibleAfterAppend(ChainOf(db.chains, rid), Stamped(t.writeSet, rid, t.txnId, ts), ts, s);
      ApplyAllLastWriteWins(StateAt(h, s), t.writeSet, rid);
    }
    forall rid ensures LatestTs(ChainOf(db'.chains, rid)) == LastCommitTs(h', rid) {
      InstallAppends(db.chains, t.writeSet, t.txnId, ts, rid);
      assert LatestTs(ChainOf(db.chains, rid)) == LastCommitTs(h, rid);
    }
  }

  lemma CommitRefines(db: Db, h: seq<Commit>, horizon: nat, t: Txn)
    requires Refines(db, h, horizon) && CanCommit(db, t).Ok?
    ensures var ts := SaturatingSucc(db.clock);
            Refines(CommitTxn(db, t).0, h + [CommitOf(t, ts)], horizon)
  {
    var ts := SaturatingSucc(db.clock);
    var db' := CommitTxn(db, t).0;
    var h' := h + [CommitOf(t, ts)];
    CommitAgrees(db, h, horizon, t);
    assert ChainsOk(db') by {
      forall rid | rid in db'.chains
        ensures SortedUpTo(db'.chains[rid], ts) && db'.chains[rid] != []
      {
        InstallKeys(db.chains, t.writeSet, t.txnId, ts, rid);
        InstallAppends(db.chains, t.writeSet, t.txnId, ts, rid);
        AppendKeepsOrder(ChainOf(db.chains, rid), Stamped(t.writeSet, rid, t.txnId, ts), ts);
        assert db'.chains[rid] == ChainOf(db'.chains, rid);
      }
    }
    assert FirstCommitterWins(h') by {
      forall i, j, rid | 0 <= i < j < |h'| && Wrote(h'[i].writes, rid) && Wrote(h'[j].writes, rid)
        ensures h'[i].ts <= h'[j].snapshotTs
      {
        if j == |h| {
          ConflictIsExact(db, h, horizon, t);
        }
      }
    }
  }

  lemma CompactedChain(db: Db, rid: nat, oldest: nat, minKeep: nat)
    requires ChainsOk(db)
    ensures var was, kept := ChainOf(db.chains, rid), ChainOf(CompactDb(db, oldest, minKeep).chains, rid);
            && SortedUpTo(kept, db.clock)
            && LatestTs(kept) == LatestTs(was)
            && forall s :: oldest <= s || db.clock <= s ==> VisibleAt(kept, s) == VisibleAt(was, s)
  {
    if rid in db.chains {
      var vs := db.chains[rid];
      CompactionKeepsView(vs, oldest, minKeep);
      CompactionStartIsGreatest(vs, oldest, minKeep);
      forall s | db.clock <= s
        ensures VisibleAt(Compacted(vs, oldest, minKeep), s) == VisibleAt(vs, s)
      {
        SuffixVisible(vs, CompactionStart(vs, oldest, minKeep), s);
      }
    }
  }

  /** Compaction reaches every chain, and drops from it the longest prefix that may be dropped. */
  lemma CompactionReachesAll(db: Db, oldest: nat, minKeep: nat, rid: nat) returns (k: nat)
    requires ChainsOk(db) && rid in db.chains
    ensures var vs := db.chains[rid];
            && CompactDb(db, oldest, minKeep).chains.Keys == db.chains.Keys
            && k <= |vs| && CompactDb(db, oldest, minKeep).chains[rid] == vs[k..]
            && Droppable(vs, k, oldest, minKeep)
            && forall j :: 0 <= j <= |vs| && Droppable(vs, j, oldest, minKeep) ==> j <= k
  {
    k := CompactionStart(db.chains[rid], oldest, minKeep);
    CompactionStartIsGreatest(db.chains[rid], oldest, minKeep);
  }

  /** With no transaction active and a floor of one, only the newest version of each record is left. */
  lemma IdleCompactionKeepsNewest(db: Db, rid: nat)
    requires ChainsOk(db) && rid in db.chains && db.active == map[]
    ensures IsBoundary(db, U64_MAX)
    ensures var vs := db.chains[rid]; CompactDb(db, U64_MAX, 1).chains[rid] == [vs[|vs| - 1]]
  {
    var vs := db.chains[rid];
    var k := CompactionReachesAll(db, U64_MAX, 1, rid);
    assert Droppable(vs, |vs| - 1, U64_MAX, 1);
  }

  /** Compaction forgets only history that no snapshot from the new horizon on can tell apart. */
  lemma CompactRefines(db: Db, h: seq<Commit>, horizon: nat, oldest: nat, minKeep: nat)
    requires Refines(db, h, horizon) && IsBoundary(db, oldest)
    ensures Refines(CompactDb(db, oldest, minKeep), h, HorizonAfter(db, horizon, oldest))
  {
    var db' := CompactDb(db, oldest, minKeep);
    assert Agrees(db', h, HorizonAfter(db, horizon, oldest)) by {
      forall rid, s: nat | HorizonAfter(db, horizon, oldest) <= s
        ensures VisibleAt(ChainOf(db'.chains, rid), s) == Lookup(StateAt(h, s), rid)
      {
        CompactedChain(db, rid, oldest, minKeep);
      }
      forall rid ensures LatestTs(ChainOf(db'.chains, rid)) == LastCommitTs(h, rid) {
        CompactedChain(db, rid, oldest, minKeep);
        assert LatestTs(ChainOf(db.chains, rid)) == LastCommitTs(h, rid);
      }
    }
    assert ChainsOk(db') by {
      forall rid | rid in db'.chains ensures SortedUpTo(db'.chains[rid], db.clock) && db'.chains[rid] != [] {
        CompactedChain(db, rid, oldest, minKeep);
        assert ChainOf(db'.chains, rid) == db'.chains[rid];
      }
    }
  }

  /** A transaction begun now sees the fold of the whole history. */
  lemma {:induction false} FreshSnapshotSeesCurrent(h: seq<Commit>, s: nat)
    requires forall i :: 0 <= i < |h| ==> h[i].ts <= s
    ensures StateAt(h, s) == Current(h)
  {
    if h == [] {
    } else {
      FreshSnapshotSeesCurrent(h[..|h| - 1], s);
    }
  }
}
