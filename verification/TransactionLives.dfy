/** The life of a transaction over whole runs: it ends once, by a commit or by a rollback, and for good. */
module TransactionLives {
  import opened Wrappers
  import opened Json
  import opened Mvcc
  import opened Transactions
  import opened TransactionRuns

  /** Some commit of the history was made by this transaction. */
  ghost predicate Carried(h: seq<Commit>, txnId: nat) {
    exists k :: 0 <= k < |h| && h[k].txnId == txnId
  }

  ghost predicate IsActive(txns: seq<Txn>, txnId: nat) {
    exists i :: 0 <= i < |txns| && txns[i].txnId == txnId && txns[i].status == Active
  }

  /**
   The committed transactions are those with a commit in the history, which is one each; and only
   active ones hold compaction back.
   */
  ghost predicate Accounted(w: World) {
    && (forall i :: 0 <= i < |w.txns| ==> (w.txns[i].status == Committed <==> Carried(w.history, w.txns[i].txnId)))
    && (forall k :: 0 <= k < |w.history| ==> w.history[k].txnId <= w.db.nextTxnId)
    && (forall j, k :: 0 <= j < k < |w.history| ==> w.history[j].txnId != w.history[k].txnId)
    && (forall id :: id in w.db.active ==> IsActive(w.txns, id))
  }

  lemma CarriedSnoc(h: seq<Commit>, c: Commit, txnId: nat)
    ensures Carried(h + [c], txnId) <==> Carried(h, txnId) || c.txnId == txnId
  {
    if Carried(h, txnId) {
      var k :| 0 <= k < |h| && h[k].txnId == txnId;
      assert (h + [c])[k].txnId == txnId;
    }
    assert (h + [c])[|h|] == c;
  }

  /** An active transaction other than the `i`-th stays one when that is replaced. */
  lemma OthersStayActive(txns: seq<Txn>, i: nat, t: Txn, id: nat)
    requires i < |txns| && IsActive(txns, id) && (txns[i].txnId != id || (t.txnId == id && t.status == txns[i].status))
    ensures IsActive(txns[i := t], id)
  {
    var k :| 0 <= k < |txns| && txns[k].txnId == id && txns[k].status == Active;
    assert k != i ==> txns[i := t][k] == txns[k];
    assert txns[i := t][i] == t;
  }

  lemma BeginAccounted(w: World)
    requires Tracked(w.db, w.txns) && Accounted(w) && w.db.nextTxnId < U64_MAX
    ensures Accounted(Next(w, BeginStep))
  {
    var w' := Next(w, BeginStep);
    forall id | id in w'.db.active ensures IsActive(w'.txns, id) {
      if id in w.db.active && id != w'.db.nextTxnId {
        var k :| 0 <= k < |w.txns| && w.txns[k].txnId == id && w.txns[k].status == Active;
        assert w'.txns[k] == w.txns[k];
      } else {
        assert w'.txns[|w.txns|].txnId == id;
      }
    }
  }

  lemma WriteAccounted(w: World, i: nat, op: WriteOp)
    requires Accounted(w) && i < |w.txns|
    ensures Accounted(Next(w, WriteStep(i, op)))
  {
    forall id | id in w.db.active ensures IsActive(Next(w, WriteStep(i, op)).txns, id) {
      OthersStayActive(w.txns, i, w.txns[i].(writeSet := w.txns[i].writeSet + [op]), id);
    }
  }

  lemma EndAccounted(w: World, i: nat, t: Txn, history: seq<Commit>, db: Db)
    requires Tracked(w.db, w.txns) && Accounted(w) && i < |w.txns| && w.txns[i].status == Active
    requires t.txnId == w.txns[i].txnId && t.status != Active
    requires db.active == w.db.active - {t.txnId} && db.nextTxnId == w.db.nextTxnId
    requires if t.status == Committed then exists c: Commit :: c.txnId == t.txnId && history == w.history + [c]
             else history == w.history
    ensures Accounted(w.(db := db, txns := w.txns[i := t], history := history))
  {
    forall id | id in db.active ensures IsActive(w.txns[i := t], id) {
      OthersStayActive(w.txns, i, t, id);
    }
    if t.status == Committed {
      var c: Commit :| c.txnId == t.txnId && history == w.history + [c];
      forall id ensures Carried(history, id) <==> Carried(w.history, id) || id == t.txnId {
        CarriedSnoc(w.history, c, id);
      }
      forall j, k | 0 <= j < k < |history| ensures history[j].txnId != history[k].txnId {
        if k == |w.history| {
          assert !Carried(w.history, t.txnId);
        }
      }
    }
  }

  lemma NextAccounted(w: World, s: Step)
    requires Tracked(w.db, w.txns) && Accounted(w)
    requires s.BeginStep? ==> w.db.nextTxnId < U64_MAX
    ensures Accounted(Next(w, s))
  {
    match s
    case BeginStep => BeginAccounted(w);
    case WriteStep(i, op) =>
      if i < |w.txns| {
        WriteAccounted(w, i, op);
      }
    case CommitStep(i) =>
      if i < |w.txns| && CanCommit(w.db, w.txns[i]).Ok? {
        var (db, t, r) := CommitTxn(w.db, w.txns[i]);
        assert CommitOf(w.txns[i], r.value).txnId == t.txnId;
        EndAccounted(w, i, t, w.history + [CommitOf(w.txns[i], r.value)], db);
      } else if i < |w.txns| {
        assert w.txns[i := w.txns[i]] == w.txns;
      }
    case RollbackStep(i) =>
      if i < |w.txns| && w.txns[i].status == Active {
        var (db, t, r) := RollbackTxn(w.db, w.txns[i]);
        EndAccounted(w, i, t, w.history, db);
      } else if i < |w.txns| {
        assert w.txns[i := w.txns[i]] == w.txns;
      }
    case CompactStep(minKeep) =>
  }

  /**
   In every run the transactions that are active for compaction are the active ones, the committed ones
   have one commit each, and the others none.
   */
  lemma {:induction false} RunAccounted(steps: seq<Step>)
    requires |steps| <= U64_MAX
    ensures Inv(RunFrom(START, steps)) && Accounted(RunFrom(START, steps))
  {
    RunKeepsInv(START, steps);
    if steps == [] {
    } else {
      var n := |steps| - 1;
      RunAccounted(steps[..n]);
      RunKeepsInv(START, steps[..n]);
      NextAccounted(RunFrom(START, steps[..n]), steps[n]);
    }
  }

  lemma {:induction false} RunAppend(w: World, a: seq<Step>, b: seq<Step>)
    ensures RunFrom(w, a + b) == RunFrom(RunFrom(w, a), b)
    decreases |b|
  {
    if b == [] {
      assert a + b == a;
    } else {
      var n := |b| - 1;
      assert (a + b)[..|a + b| - 1] == a + b[..n];
      RunAppend(w, a, b[..n]);
    }
  }

  /** Whatever comes after, a transaction that has ended stays as it ended. */
  lemma {:induction false} EndedStaysEnded(w: World, steps: seq<Step>, i: nat)
    requires i < |w.txns| && w.txns[i].status != Active
    ensures var w' := RunFrom(w, steps);
            && i < |w'.txns| && w'.txns[i].status == w.txns[i].status && w'.txns[i].txnId == w.txns[i].txnId
            && w'.txns[i].snapshotTs == w.txns[i].snapshotTs
  {
    if steps == [] {
    } else {
      EndedStaysEnded(w, steps[..|steps| - 1], i);
    }
  }

  /**
   A transaction rolled back while active, at any point of any run: whatever comes after, it is never
   active again, every commit of it is refused, no commit of the history is its own, and it holds no
   compaction back.
   */
  lemma RollbackIsFinal(before: seq<Step>, i: nat, after: seq<Step>)
    requires |before| + 1 + |after| <= U64_MAX
    requires var w := RunFrom(START, before); i < |w.txns| && w.txns[i].status == Active
    ensures var id := RunFrom(START, before).txns[i].txnId;
            var w := RunFrom(START, before + [RollbackStep(i)] + after);
            && i < |w.txns| && w.txns[i].txnId == id && w.txns[i].status == RolledBack
            && CommitTxn(w.db, w.txns[i]).2 == Err(NotActive) && RollbackTxn(w.db, w.txns[i]).2 == Err(NotActive)
            && !Carried(w.history, id) && id !in w.db.active
  {
    EndIsFinal(before, RollbackStep(i), after, i);
  }

  /**
   And one whose commit went through: exactly one commit of the history is its own, and is still there
   as it was made; it is refused a second.
   */
  lemma CommitIsFinal(before: seq<Step>, i: nat, after: seq<Step>)
    requires |before| + 1 + |after| <= U64_MAX
    requires var w := RunFrom(START, before); i < |w.txns| && CommitTxn(w.db, w.txns[i]).2.Ok?
    ensures var was := RunFrom(START, before);
            var k := |was.history|;
            var w := RunFrom(START, before + [CommitStep(i)] + after);
            && i < |w.txns| && w.txns[i].txnId == was.txns[i].txnId && w.txns[i].status == Committed
            && CommitTxn(w.db, w.txns[i]).2 == Err(NotActive) && RollbackTxn(w.db, w.txns[i]).2 == Err(NotActive)
            && k < |w.history|
            && w.history[k] == Commit(was.txns[i].txnId, was.txns[i].snapshotTs, k + 1, was.txns[i].writeSet)
            && was.txns[i].txnId !in w.db.active
            && (forall j :: 0 <= j < |w.history| && w.history[j].txnId == was.txns[i].txnId ==> j == k)
  {
    var w := RunFrom(START, before);
    EndIsFinal(before, CommitStep(i), after, i);
    TimestampsCountCommits(before);
    StepSnoc(START, before, CommitStep(i));
    RunAppend(START, before + [CommitStep(i)], after);
    HistoryGrows(Next(w, CommitStep(i)), after);
  }

  lemma StepSnoc(w: World, steps: seq<Step>, s: Step)
    ensures RunFrom(w, steps + [s]) == Next(RunFrom(w, steps), s)
  {
    assert (steps + [s])[..|steps|] == steps;
  }

  /** A run adds to the history at its end. */
  lemma {:induction false} HistoryGrows(w: World, steps: seq<Step>)
    ensures w.history <= RunFrom(w, steps).history
  {
    if steps == [] {
    } else {
      HistoryGrows(w, steps[..|steps| - 1]);
    }
  }

  lemma EndIsFinal(before: seq<Step>, s: Step, after: seq<Step>, i: nat)
    requires |before| + 1 + |after| <= U64_MAX
    requires i < |RunFrom(START, before).txns|
    requires var w := Next(RunFrom(START, before), s); i < |w.txns| && w.txns[i].status != Active
    ensures var end := Next(RunFrom(START, before), s).txns[i];
            var w := RunFrom(START, before + [s] + after);
            && i < |w.txns| && w.txns[i].txnId == end.txnId && w.txns[i].status == end.status
            && (end.status == Committed <==> Carried(w.history, end.txnId)) && end.txnId !in w.db.active
            && Accounted(w)
  {
    StepSnoc(START, before, s);
    RunAppend(START, before + [s], after);
    EndedStaysEnded(Next(RunFrom(START, before), s), after, i);
    RunAccounted(before + [s] + after);
  }
}
