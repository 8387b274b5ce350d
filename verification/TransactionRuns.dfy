/**
 Whole runs of the transaction manager: any interleaving of begin, write, commit, rollback and
 compaction over any number of transactions.
 */
module TransactionRuns {
  import opened Wrappers
  import opened Json
  import opened Mvcc
  import opened Transactions

  /** Transactions are addressed by the order in which they began. */
  datatype Step =
    | BeginStep
    | WriteStep(txn: nat, op: WriteOp)
    | CommitStep(txn: nat)
    | RollbackStep(txn: nat)
    | CompactStep(minKeep: nat)

  /** The manager, every transaction handed out, the commits so far, and the compaction horizon. */
  datatype World = World(db: Db, txns: seq<Txn>, history: seq<Commit>, horizon: nat)

  const START := World(EMPTY_DB, [], [], 0)

  lemma {:induction false} BoundaryExists(db: Db)
    ensures exists oldest :: IsBoundary(db, oldest)
    decreases |db.active|
  {
    if db.active == map[] {
      assert IsBoundary(db, U64_MAX);
    } else {
      var id :| id in db.active;
      var rest := db.(active := db.active - {id});
      BoundaryExists(rest);
      var o :| IsBoundary(rest, o);
      assert forall k :: k in db.active && k != id ==> k in rest.active && rest.active[k] == db.active[k];
      if rest.active == map[] || db.active[id] <= o {
        assert IsBoundary(db, db.active[id]);
      } else {
        assert o in db.active.Values by {
          var k :| k in rest.active && rest.active[k] == o;
          assert db.active[k] == o;
        }
        assert IsBoundary(db, o);
      }
    }
  }

  ghost function Boundary(db: Db): (oldest: nat)
    ensures IsBoundary(db, oldest)
  {
    BoundaryExists(db);
    var oldest :| IsBoundary(db, oldest);
    oldest
  }

  /** A step naming a transaction that was never begun does nothing. */
  ghost function Next(w: World, s: Step): World {
    match s
    case BeginStep =>
      var (db, t) := BeginTxn(w.db);
      w.(db := db, txns := w.txns + [t])
    case WriteStep(i, op) =>
      if i < |w.txns| then
        w.(txns := w.txns[i := w.txns[i].(writeSet := w.txns[i].writeSet + [op])])
      else w
    case CommitStep(i) =>
      if i < |w.txns| then
        var (db, t, r) := CommitTxn(w.db, w.txns[i]);
        w.(db := db, txns := w.txns[i := t],
           history := if r.Ok? then w.history + [CommitOf(w.txns[i], r.value)] else w.history)
      else w
    case RollbackStep(i) =>
      if i < |w.txns| then
        var (db, t, r) := RollbackTxn(w.db, w.txns[i]);
        w.(db := db, txns := w.txns[i := t])
      else w
    case CompactStep(minKeep) =>
      var oldest := Boundary(w.db);
      w.(db := CompactDb(w.db, oldest, minKeep), horizon := HorizonAfter(w.db, w.horizon, oldest))
  }

  ghost function RunFrom(w: World, steps: seq<Step>): World {
    if steps == [] then w else Next(RunFrom(w, steps[..|steps| - 1]), steps[|steps| - 1])
  }

  /** The manager knows the snapshot of every active transaction, and no two share an id. */
  ghost predicate Tracked(db: Db, txns: seq<Txn>) {
    && (forall i :: 0 <= i < |txns| && txns[i].status == Active ==>
          txns[i].txnId in db.active && db.active[txns[i].txnId] == txns[i].snapshotTs)
    && (forall i :: 0 <= i < |txns| ==> txns[i].txnId <= db.nextTxnId)
    && (forall i, j :: 0 <= i < j < |txns| ==> txns[i].txnId != txns[j].txnId)
  }

  ghost predicate Inv(w: World) {
    Refines(w.db, w.history, w.horizon) && Tracked(w.db, w.txns)
  }

  /** Every step keeps the invariant, as long as there is a fresh id left for a new transaction. */
  lemma NextKeepsInv(w: World, s: Step)
    requires Inv(w)
    requires s.BeginStep? ==> w.db.nextTxnId < U64_MAX
    ensures Inv(Next(w, s))
  {
    NextRefines(w, s);
    NextTracked(w, s);
  }

  lemma NextRefines(w: World, s: Step)
    requires Inv(w)
    ensures Refines(Next(w, s).db, Next(w, s).history, Next(w, s).horizon)
  {
    match s
    case BeginStep => BeginRefines(w.db, w.history, w.horizon);
    case WriteStep(i, op) =>
    case CommitStep(i) =>
      if i < |w.txns| && CanCommit(w.db, w.txns[i]).Ok? {
        CommitRefines(w.db, w.history, w.horizon, w.txns[i]);
      }
    case RollbackStep(i) =>
      if i < |w.txns| {
        RollbackRefines(w.db, w.history, w.horizon, w.txns[i]);
      }
    case CompactStep(minKeep) =>
      CompactRefines(w.db, w.history, w.horizon, Boundary(w.db), minKeep);
  }

  lemma NextTracked(w: World, s: Step)
    requires Tracked(w.db, w.txns)
    requires s.BeginStep? ==> w.db.nextTxnId < U64_MAX
    ensures Tracked(Next(w, s).db, Next(w, s).txns)
  {
  }

  /** How far a run can push the two counters. */
  ghost predicate Room(w: World, steps: nat) {
    w.db.nextTxnId + steps <= U64_MAX && w.db.clock + steps <= U64_MAX
  }

  lemma {:induction false} RunKeepsInv(w: World, steps: seq<Step>)
    requires Inv(w) && Room(w, |steps|)
    ensures Inv(RunFrom(w, steps))
    ensures RunFrom(w, steps).db.nextTxnId <= w.db.nextTxnId + |steps|
    ensures RunFrom(w, steps).db.clock <= w.db.clock + |steps|
  {
    if steps == [] {
    } else {
      var n := |steps| - 1;
      RunKeepsInv(w, steps[..n]);
      NextKeepsInv(RunFrom(w, steps[..n]), steps[n]);
    }
  }

  /**
   In every run, an active transaction reads its own last write, else the fold of the commits at
   or before its snapshot, whatever compaction has thrown away.
   */
  lemma ReadsAreSnapshotReads(steps: seq<Step>, i: nat, rid: nat)
    requires |steps| <= U64_MAX
    requires var w := RunFrom(START, steps); i < |w.txns| && w.txns[i].status == Active
    ensures var w := RunFrom(START, steps);
            var t := w.txns[i];
            ReadTxn(w.db, t, rid) == Lookup(ApplyAll(StateAt(w.history, t.snapshotTs), t.writeSet), rid)
  {
    RunKeepsInv(START, steps);
    var w := RunFrom(START, steps);
    var t := w.txns[i];
    ApplyAllLastWriteWins(StateAt(w.history, t.snapshotTs), t.writeSet, rid);
    assert w.horizon <= w.db.active[t.txnId] == t.snapshotTs;
  }

  predicate ActsOn(s: Step, i: nat) {
    (s.WriteStep? || s.CommitStep? || s.RollbackStep?) && s.txn == i
  }

  /** The one step that can reach into a snapshot: a commit when the clock cannot advance. */
  predicate ClockStuck(w: World, s: Step) {
    s.CommitStep? && w.db.clock == U64_MAX
  }

  lemma OthersDoNotDisturb(w: World, s: Step, i: nat, rid: nat)
    requires Inv(w) && i < |w.txns| && w.txns[i].status == Active
    requires !ActsOn(s, i) && !ClockStuck(w, s)
    ensures Next(w, s).txns[i] == w.txns[i]
    ensures ReadTxn(Next(w, s).db, w.txns[i], rid) == ReadTxn(w.db, w.txns[i], rid)
  {
    var t := w.txns[i];
    assert w.horizon <= w.db.active[t.txnId] == t.snapshotTs <= w.db.clock;
    match s
    case BeginStep =>
    case WriteStep(j, op) =>
    case RollbackStep(j) =>
    case CommitStep(j) =>
      if j < |w.txns| && CanCommit(w.db, w.txns[j]).Ok? {
        CommitIsLater(w.db, w.txns[j], t, rid);
      }
    case CompactStep(minKeep) =>
      CompactedChain(w.db, rid, Boundary(w.db), minKeep);
  }

  /** A commit stamps its versions after every snapshot already taken. */
  lemma CommitIsLater(db: Db, u: Txn, t: Txn, rid: nat)
    requires ChainsOk(db) && CanCommit(db, u).Ok? && t.snapshotTs <= db.clock < U64_MAX
    ensures ReadTxn(CommitTxn(db, u).0, t, rid) == ReadTxn(db, t, rid)
  {
    var ts := SaturatingSucc(db.clock);
    InstallAppends(db.chains, u.writeSet, u.txnId, ts, rid);
    VisibleAfterAppend(ChainOf(db.chains, rid), Stamped(u.writeSet, rid, u.txnId, ts), ts, t.snapshotTs);
  }

  /** A transaction's view does not move while only others act, however they interleave. */
  lemma {:induction false} SnapshotIsStable(w: World, steps: seq<Step>, i: nat, rid: nat)
    requires Inv(w) && Room(w, |steps|)
    requires i < |w.txns| && w.txns[i].status == Active
    requires forall k :: 0 <= k < |steps| ==> !ActsOn(steps[k], i)
    ensures i < |RunFrom(w, steps).txns| && RunFrom(w, steps).txns[i] == w.txns[i]
    ensures ReadTxn(RunFrom(w, steps).db, w.txns[i], rid) == ReadTxn(w.db, w.txns[i], rid)
  {
    if steps == [] {
    } else {
      var n := |steps| - 1;
      SnapshotIsStable(w, steps[..n], i, rid);
      RunKeepsInv(w, steps[..n]);
      OthersDoNotDisturb(RunFrom(w, steps[..n]), steps[n], i, rid);
    }
  }

  /** Commits that wrote nothing, one for each timestamp up to `c`. */
  function BlankHistory(c: nat): (h: seq<Commit>)
    ensures |h| == c && forall k :: 0 <= k < c ==> h[k] == Commit(0, k, k + 1, [])
  {
    seq(c, k requires 0 <= k => Commit(0, k, k + 1, []))
  }

  lemma {:induction false} BlankSays(h: seq<Commit>, s: nat, rid: nat)
    requires forall k :: 0 <= k < |h| ==> h[k].writes == []
    ensures StateAt(h, s) == map[] && LastCommitTs(h, rid) == None
  {
    if h == [] {
    } else {
      BlankSays(h[..|h| - 1], s, rid);
    }
  }

  /** A reader, and a writer that is about to commit, both at the snapshot after `c` commits. */
  function ReaderAndWriter(c: nat): World {
    var reader := Txn(1, c, [], Active);
    var writer := Txn(2, c, [Upsert(0, map[])], Active);
    World(Db(map[], map[1 := c, 2 := c], 2, c), [reader, writer], BlankHistory(c), 0)
  }

  lemma ReaderAndWriterInv(c: nat)
    requires c <= U64_MAX
    ensures Inv(ReaderAndWriter(c))
  {
    var w := ReaderAndWriter(c);
    forall rid: nat, s: nat
      ensures VisibleAt(ChainOf(w.db.chains, rid), s) == Lookup(StateAt(w.history, s), rid)
    {
      BlankSays(w.history, s, rid);
    }
    forall rid: nat ensures LatestTs(ChainOf(w.db.chains, rid)) == LastCommitTs(w.history, rid) {
      BlankSays(w.history, 0, rid);
    }
  }

  /** Committing with the clock at its end stamps the versions with the reader's own snapshot. */
  lemma ReaderIsDisturbed(w: World)
    requires w == ReaderAndWriter(U64_MAX)
    ensures ReadTxn(w.db, w.txns[0], 0) == None
    ensures ReadTxn(Next(w, CommitStep(1)).db, w.txns[0], 0) == Some(map[])
  {
    var u, c := w.txns[1], U64_MAX;
    InstallAppends(w.db.chains, u.writeSet, u.txnId, c, 0);
    VisibleAfterAppend([], Stamped(u.writeSet, 0, u.txnId, c), c, c);
    assert LastWrite(u.writeSet, 0) == Some(u.writeSet[0]);
  }

  /**
   Snapshots hold at a clock value, which counts the commits, against every step of every world iff
   the clock can advance.
   */
  lemma StableIffClockAdvances(c: nat)
    requires c <= U64_MAX
    ensures (forall w: World, s, i: nat, rid: nat ::
              Inv(w) && w.db.clock == |w.history| == c ==>
                i < |w.txns| && w.txns[i].status == Active && !ActsOn(s, i) ==>
                  ReadTxn(Next(w, s).db, w.txns[i], rid) == ReadTxn(w.db, w.txns[i], rid))
            <==> c < U64_MAX
  {
    if c < U64_MAX {
      forall w: World, s, i: nat, rid: nat |
        Inv(w) && w.db.clock == c && i < |w.txns| && w.txns[i].status == Active && !ActsOn(s, i)
        ensures ReadTxn(Next(w, s).db, w.txns[i], rid) == ReadTxn(w.db, w.txns[i], rid)
      {
        OthersDoNotDisturb(w, s, i, rid);
      }
    } else {
      ReaderAndWriterInv(c);
      ReaderIsDisturbed(ReaderAndWriter(c));
    }
  }

  /** In every run the first committer wins, even when compaction ran in between. */
  lemma RunsKeepFirstCommitterWins(steps: seq<Step>, i: nat, j: nat, rid: nat)
    requires |steps| <= U64_MAX
    requires var h := RunFrom(START, steps).history;
             i < j < |h| && Wrote(h[i].writes, rid) && Wrote(h[j].writes, rid)
    ensures var h := RunFrom(START, steps).history; h[i].ts <= h[j].snapshotTs
  {
    RunKeepsInv(START, steps);
  }

  /** Commit timestamps are the positions in the history, and every snapshot precedes its commit. */
  lemma {:induction false} TimestampsCountCommits(steps: seq<Step>)
    requires |steps| <= U64_MAX
    ensures var w := RunFrom(START, steps);
            && w.db.clock == |w.history| <= |steps|
            && (forall k :: 0 <= k < |w.history| ==> w.history[k].snapshotTs < w.history[k].ts == k + 1)
            && (forall i :: 0 <= i < |w.txns| ==> w.txns[i].snapshotTs <= w.db.clock)
  {
    if steps == [] {
    } else {
      TimestampsCountCommits(steps[..|steps| - 1]);
    }
  }

  /** Reading at the timestamp of the k-th commit folds exactly the first k commits. */
  lemma {:induction false} StateAtIsPrefixFold(h: seq<Commit>, s: nat)
    requires forall k :: 0 <= k < |h| ==> h[k].ts == k + 1
    ensures StateAt(h, s) == Current(h[..Min(s, |h|)])
  {
    if h == [] {
    } else {
      var n := |h| - 1;
      StateAtIsPrefixFold(h[..n], s);
      if s <= n {
        assert h[..n][..Min(s, n)] == h[..Min(s, |h|)];
      } else {
        assert h[..n][..Min(s, n)] == h[..n];
        assert h[..Min(s, |h|)] == h;
      }
    }
  }

  /**
   No update is lost: what a committed transaction saw, at its snapshot, of a record it wrote is
   what the database held immediately before that commit.
   */
  lemma NoUpdateIsLost(steps: seq<Step>, j: nat, rid: nat)
    requires |steps| <= U64_MAX
    requires var h := RunFrom(START, steps).history; j < |h| && Wrote(h[j].writes, rid)
    ensures var h := RunFrom(START, steps).history;
            Lookup(StateAt(h, h[j].snapshotTs), rid) == Lookup(Current(h[..j]), rid)
  {
    var h := RunFrom(START, steps).history;
    RunKeepsInv(START, steps);
    TimestampsCountCommits(steps);
    var s := h[j].snapshotTs;
    StateAtIsPrefixFold(h, s);
    UnwrittenInBetween(h, s, j, rid);
  }

  lemma {:induction false} UnwrittenInBetween(h: seq<Commit>, from: nat, to: nat, rid: nat)
    requires from <= to <= |h|
    requires forall k :: from <= k < to ==> !Wrote(h[k].writes, rid)
    ensures Lookup(Current(h[..from]), rid) == Lookup(Current(h[..to]), rid)
  {
    if from < to {
      UnwrittenInBetween(h, from, to - 1, rid);
      assert h[..to][..to - 1] == h[..to - 1];
      ApplyAllLastWriteWins(Current(h[..to - 1]), h[to - 1].writes, rid);
    }
  }
}
