/** The transaction manager as the engine runs it: mutable chains, proved against `Transactions`. */
module TransactionManagers {
  import opened Wrappers
  import opened Json
  import opened Mvcc
  import opened Transactions

  class Transaction {
    const txnId: nat
    const snapshotTs: nat
    var writeSet: seq<WriteOp>
    var status: TxnStatus

    constructor (txnId: nat, snapshotTs: nat)
      ensures View() == Txn(txnId, snapshotTs, [], Active)
    {
      this.txnId, this.snapshotTs := txnId, snapshotTs;
      writeSet, status := [], Active;
    }

    ghost function View(): Txn
      reads this
    {
      Txn(txnId, snapshotTs, writeSet, status)
    }
  }

  class TransactionManager {
    var chains: map<nat, VersionChain>
    var activeTxns: map<nat, nat>
    var nextTxnId: nat
    var clockTs: nat

    /** The chains' footprint. */
    ghost var repr: set<VersionChain>

    /** Every commit so far, and the timestamp from which the chains still tell all of it. */
    ghost var history: seq<Commit>
    ghost var horizon: nat

    ghost function Contents(): map<nat, seq<VersionEntry>>
      requires Filed()
      reads this`chains, this`repr, repr
    {
      map rid | rid in chains :: chains[rid].versions
    }

    ghost function Model(): Db
      requires Filed()
      reads this`chains, this`activeTxns, this`nextTxnId, this`clockTs, this`repr, repr
    {
      Db(Contents(), activeTxns, nextTxnId, clockTs)
    }

    /** A chain is filed under its own record id, so no two records share one. */
    ghost predicate Filed()
      reads this`chains, this`repr, repr
    {
      forall rid :: rid in chains ==> chains[rid] in repr && chains[rid].recordId == rid
    }

    ghost predicate Valid()
      reads this, repr
    {
      Filed() && Refines(Model(), history, horizon)
    }

    constructor ()
      ensures Valid() && Model() == EMPTY_DB && history == [] && horizon == 0
      ensures chains == map[] && repr == {}
    {
      chains, activeTxns, nextTxnId, clockTs := map[], map[], 0, 0;
      history, horizon, repr := [], 0, {};
    }

    method Begin() returns (txn: Transaction)
      requires Valid()
      modifies this
      ensures Valid() && fresh(txn)
      ensures (Model(), txn.View()) == BeginTxn(old(Model()))
      ensures txn.status == Active && txn.writeSet == [] && txn.snapshotTs == clockTs == old(clockTs)
      ensures txn.txnId == SaturatingSucc(old(nextTxnId)) == nextTxnId
      ensures activeTxns == old(activeTxns)[txn.txnId := clockTs]
      ensures chains == old(chains) && repr == old(repr) && history == old(history) && horizon == old(horizon)
      ensures horizon <= txn.snapshotTs
    {
      ghost var was := Contents();
      BeginRefines(Model(), history, horizon);
      nextTxnId := SaturatingSucc(nextTxnId);
      txn := new Transaction(nextTxnId, clockTs);
      activeTxns := activeTxns[txn.txnId := txn.snapshotTs];
      assert Contents() == was;
    }

    /** A snapshot the chains still cover reads its own writes over the fold of the history. */
    method Read(txn: Transaction, rid: nat) returns (r: Option<Record>)
      requires Valid()
      ensures r == ReadTxn(Model(), txn.View(), rid)
      ensures horizon <= txn.snapshotTs ==>
                r == Lookup(ApplyAll(StateAt(history, txn.snapshotTs), txn.writeSet), rid)
    {
      ApplyAllLastWriteWins(StateAt(history, txn.snapshotTs), txn.writeSet, rid);
      assert ChainOf(Model().chains, rid) == if rid in chains then chains[rid].versions else [];
      var own := LastWrite(txn.writeSet, rid);
      if own.Some? {
        return own.value.Outcome();
      }
      if rid !in chains {
        return None;
      }
      return VisibleAt(chains[rid].versions, txn.snapshotTs);
    }

    /** The committed records of a snapshot; unlike `Read`, the transaction's own writes are not in it. */
    method VisibleRecords(txn: Transaction) returns (r: map<nat, Record>)
      requires Valid()
      ensures horizon <= txn.snapshotTs ==> r == StateAt(history, txn.snapshotTs)
    {
      r := map rid | rid in chains && VisibleAt(chains[rid].versions, txn.snapshotTs).Some?
             :: VisibleAt(chains[rid].versions, txn.snapshotTs).value;
      ghost var st := StateAt(history, txn.snapshotTs);
      if horizon <= txn.snapshotTs {
        forall rid ensures Lookup(r, rid) == Lookup(st, rid) {
          assert VisibleAt(ChainOf(Model().chains, rid), txn.snapshotTs) == Lookup(st, rid);
        }
        SameLookups(r, st);
      }
    }

    method Write(txn: Transaction, op: WriteOp)
      modifies txn
      ensures txn.View() == old(txn.View()).(writeSet := old(txn.writeSet) + [op])
    {
      txn.writeSet := txn.writeSet + [op];
    }

    method CheckCommit(txn: Transaction) returns (r: Result<(), TxnError>)
      requires Valid()
      ensures r == CanCommit(Model(), txn.View())
    {
      if txn.status != Active {
        return Err(NotActive);
      }
      for i := 0 to |txn.writeSet|
        invariant forall k :: 0 <= k < i && txn.writeSet[k].recordId in chains ==>
                    var latest := LatestTs(chains[txn.writeSet[k].recordId].versions);
                    latest.Some? ==> latest.value <= txn.snapshotTs
      {
        var rid := txn.writeSet[i].recordId;
        if rid in chains {
          var latest := LatestTs(chains[rid].versions);
          if latest.Some? && latest.value > txn.snapshotTs {
            assert Model().chains[txn.View().writeSet[i].recordId] == chains[rid].versions;
            return Err(WriteWriteConflict);
          }
        }
      }
      return Ok(());
    }

    method Commit(txn: Transaction) returns (r: Result<nat, TxnError>)
      requires Valid()
      modifies this, repr, txn
      ensures Valid()
      ensures (Model(), txn.View(), r) == CommitTxn(old(Model()), old(txn.View()))
      ensures r.Ok? ==> old(txn.status) == Active && txn.status == Committed && txn.writeSet == []
      ensures r.Ok? ==> activeTxns == old(activeTxns) - {txn.txnId}
      ensures r.Ok? ==> r.value == clockTs == SaturatingSucc(old(clockTs))
      ensures old(txn.status) != Active ==> r == Err(NotActive)
      ensures r.Err? ==> Model() == old(Model()) && txn.View() == old(txn.View())
      ensures history == if r.Ok? then old(history) + [CommitOf(old(txn.View()), r.value)] else old(history)
      ensures horizon == old(horizon)
      ensures fresh(repr - old(repr))
    {
      ghost var db, t := Model(), txn.View();
      var check := CheckCommit(txn);
      if check.Err? {
        return Err(check.error);
      }
      CommitRefines(db, history, horizon, t);
      Publish(txn);
      assert Model() == CommitTxn(db, t).0;
      history := history + [CommitOf(t, clockTs)];
      return Ok(clockTs);
    }

    /** A commit past its conflict check. */
    method Publish(txn: Transaction)
      requires Filed() && AllSorted(Contents())
      modifies this`chains, this`activeTxns, this`clockTs, this`repr, repr, txn
      ensures Filed() && fresh(repr - old(repr))
      ensures clockTs == SaturatingSucc(old(clockTs)) && activeTxns == old(activeTxns) - {txn.txnId}
      ensures Contents() == Install(old(Contents()), old(txn.writeSet), txn.txnId, clockTs)
      ensures txn.View() == old(txn.View()).(writeSet := [], status := Committed)
    {
      activeTxns, clockTs := activeTxns - {txn.txnId}, SaturatingSucc(clockTs);
      var ops := txn.writeSet;
      txn.writeSet, txn.status := [], Committed;
      assert Contents() == old(Contents());
      InstallWrites(ops, txn.txnId, clockTs);
    }

    /** The draining loop of a commit. */
    method InstallWrites(ops: seq<WriteOp>, txnId: nat, ts: nat)
      requires Filed() && AllSorted(Contents())
      modifies this`chains, this`repr, repr
      ensures Filed() && fresh(repr - old(repr))
      ensures Contents() == Install(old(Contents()), ops, txnId, ts)
    {
      ghost var was := Contents();
      for i := 0 to |ops|
        invariant Filed() && fresh(repr - old(repr))
        invariant Contents() == Install(was, ops[..i], txnId, ts)
      {
        assert ops[..i + 1][..i] == ops[..i];
        InstallKeepsSorted(was, ops[..i], txnId, ts);
        InsertInto(ops[i].recordId, VersionEntry(txnId, ts, ops[i].Outcome()));
      }
      assert ops[..|ops|] == ops;
    }

    /** `entry(record_id).or_insert_with(..)`, then an insertion into that chain. */
    method InsertInto(rid: nat, e: VersionEntry)
      requires Filed() && Sorted(ChainOf(Contents(), rid))
      modifies this`chains, this`repr, repr
      ensures Filed() && fresh(repr - old(repr))
      ensures Contents() == old(Contents())[rid := Inserted(ChainOf(old(Contents()), rid), e)]
    {
      ghost var was := Contents();
      var chain: VersionChain;
      if rid in chains {
        chain := chains[rid];
      } else {
        chain := new VersionChain(rid);
        chains, repr := chains[rid := chain], repr + {chain};
      }
      assert chain.versions == ChainOf(was, rid);
      chain.Insert(e);
      assert forall r :: r in chains && r != rid ==> chains[r].versions == was[r];
    }

    method Rollback(txn: Transaction) returns (r: Result<(), TxnError>)
      requires Valid()
      modifies this, txn
      ensures Valid()
      ensures (Model(), txn.View(), r) == RollbackTxn(old(Model()), old(txn.View()))
      ensures r == if old(txn.status) == Active then Ok(()) else Err(NotActive)
      ensures r.Ok? ==> txn.status == RolledBack && txn.writeSet == [] && activeTxns == old(activeTxns) - {txn.txnId}
      ensures r.Err? ==> txn.View() == old(txn.View()) && activeTxns == old(activeTxns)
      ensures nextTxnId == old(nextTxnId) && clockTs == old(clockTs)
      ensures chains == old(chains) && repr == old(repr) && history == old(history) && horizon == old(horizon)
    {
      if txn.status != Active {
        return Err(NotActive);
      }
      ghost var was := Contents();
      RollbackRefines(Model(), history, horizon, txn.View());
      txn.writeSet := [];
      activeTxns := activeTxns - {txn.txnId};
      txn.status := RolledBack;
      assert Contents() == was;
      return Ok(());
    }

    method OldestActiveSnapshot() returns (oldest: Option<nat>)
      requires Valid()
      ensures IsBoundary(Model(), if oldest.Some? then oldest.value else U64_MAX)
      ensures oldest.None? <==> activeTxns == map[]
    {
      oldest := None;
      var todo := activeTxns.Keys;
      while todo != {}
        invariant todo <= activeTxns.Keys
        invariant oldest.None? <==> todo == activeTxns.Keys
        invariant oldest.Some? ==> exists id :: id in activeTxns && activeTxns[id] == oldest.value
        invariant oldest.Some? ==> forall id :: id in activeTxns && id !in todo ==> oldest.value <= activeTxns[id]
      {
        var id :| id in todo;
        if oldest.None? || activeTxns[id] < oldest.value {
          oldest := Some(activeTxns[id]);
        }
        todo := todo - {id};
      }
    }

    method CompactVersionsWithFloor(minKeep: nat) returns (oldest: nat)
      requires Valid()
      modifies this`horizon, repr
      ensures Valid()
      ensures history == old(history) && IsBoundary(old(Model()), oldest)
      ensures Model() == CompactDb(old(Model()), oldest, minKeep)
      ensures horizon == HorizonAfter(old(Model()), old(horizon), oldest)
    {
      var active := OldestActiveSnapshot();
      oldest := if active.Some? then active.value else U64_MAX;
      CompactTo(oldest, minKeep);
    }

    /** The chains after a compaction still tell the history, from the new horizon on. */
    method CompactTo(oldest: nat, minKeep: nat)
      requires Valid() && IsBoundary(Model(), oldest)
      modifies this`horizon, repr
      ensures Valid()
      ensures Model() == CompactDb(old(Model()), oldest, minKeep)
      ensures horizon == HorizonAfter(old(Model()), old(horizon), oldest)
    {
      CompactRefines(Model(), history, horizon, oldest, minKeep);
      ghost var db := CompactDb(Model(), oldest, minKeep);
      horizon := HorizonAfter(Model(), horizon, oldest);
      CompactModel(oldest, minKeep, db);
    }

    method CompactModel(oldest: nat, minKeep: nat, ghost db: Db)
      requires Filed() && db == CompactDb(Model(), oldest, minKeep)
      modifies repr
      ensures Filed() && Model() == db
    {
      CompactChains(oldest, minKeep);
    }

    method CompactOne(rid: nat, oldest: nat, minKeep: nat)
      requires Filed() && rid in chains
      modifies chains[rid]
      ensures Filed()
      ensures Contents() == old(Contents())[rid := Compacted(old(Contents())[rid], oldest, minKeep)]
    {
      chains[rid].CompactForOldestSnapshotWithFloor(oldest, minKeep);
    }

    /** The loop over all chains of a compaction. */
    method CompactChains(oldest: nat, minKeep: nat)
      requires Filed()
      modifies repr
      ensures Filed()
      ensures Contents() == CompactAll(old(Contents()), oldest, minKeep)
    {
      ghost var was := Contents();
      var todo := chains.Keys;
      while todo != {}
        invariant todo <= chains.Keys && Filed()
        invariant forall rid :: rid in todo ==> Contents()[rid] == was[rid]
        invariant forall rid :: rid in chains && rid !in todo ==>
                    Contents()[rid] == Compacted(was[rid], oldest, minKeep)
      {
        var rid :| rid in todo;
        CompactOne(rid, oldest, minKeep);
        todo := todo - {rid};
      }
    }
  }
}
