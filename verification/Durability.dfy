/** The log of operations behind the committed state: what is logged, and what replaying it gives. */
module Durability {
  import opened Wrappers
  import opened Json
  import opened Bytes
  import opened Transactions
  import opened WriteAheadLog

  /** One logged operation; there is no marker for the commit it belongs to. */
  datatype Payload =
    | UpsertPayload(txnId: nat, recordId: nat, record: Record)
    | DeletePayload(txnId: nat, recordId: nat)

  /** `serde_json` on payloads, as a pair of functions. */
  datatype Codec = Codec(encode: Payload -> bytes, decode: bytes -> Option<Payload>)

  ghost predicate RoundTrips(codec: Codec) {
    forall p :: codec.decode(codec.encode(p)) == Some(p)
  }

  function PayloadOf(txnId: nat, op: WriteOp): Payload {
    match op
    case Upsert(rid, record) => UpsertPayload(txnId, rid, record)
    case Delete(rid) => DeletePayload(txnId, rid)
  }

  function OpOf(p: Payload): WriteOp {
    match p
    case UpsertPayload(_, rid, record) => Upsert(rid, record)
    case DeletePayload(_, rid) => Delete(rid)
  }

  /** A payload carries the operation and the transaction it belongs to. */
  lemma PayloadCarries(txnId: nat, op: WriteOp)
    ensures OpOf(PayloadOf(txnId, op)) == op && PayloadOf(txnId, op).txnId == txnId
  {
  }

  /** The operations a replay of these entries applies; an entry it cannot decode is skipped. */
  function Logged(es: seq<WalEntry>, codec: Codec): seq<WriteOp> {
    if es == [] then []
    else
      var before := Logged(es[..|es| - 1], codec);
      match codec.decode(es[|es| - 1].payload)
      case None => before
      case Some(p) => before + [OpOf(p)]
  }

  lemma LoggedSnoc(es: seq<WalEntry>, e: WalEntry, codec: Codec)
    ensures Logged(es + [e], codec) ==
            match codec.decode(e.payload)
            case None => Logged(es, codec)
            case Some(p) => Logged(es, codec) + [OpOf(p)]
  {
    assert (es + [e])[..|es|] == es;
  }

  lemma LoggedAt(es: seq<WalEntry>, i: nat, codec: Codec)
    requires i < |es|
    ensures var p := codec.decode(es[i].payload);
            Logged(es[..i + 1], codec) == Logged(es[..i], codec) + if p.Some? then [OpOf(p.value)] else []
  {
    assert es[..i + 1] == es[..i] + [es[i]];
    LoggedSnoc(es[..i], es[i], codec);
  }

  /** All operations of a commit history, in order. */
  function Flatten(h: seq<Commit>): seq<WriteOp> {
    if h == [] then [] else Flatten(h[..|h| - 1]) + h[|h| - 1].writes
  }

  lemma {:induction false} ApplyAllAppend(st: State, a: seq<WriteOp>, b: seq<WriteOp>)
    ensures ApplyAll(st, a + b) == ApplyAll(ApplyAll(st, a), b)
    decreases |b|
  {
    if b == [] {
      assert a + b == a;
    } else {
      var n := |b| - 1;
      assert (a + b)[..|a + b| - 1] == a + b[..n];
      ApplyAllAppend(st, a, b[..n]);
    }
  }

  /** One more commit. */
  lemma HistorySnoc(h: seq<Commit>, c: Commit)
    ensures Current(h + [c]) == ApplyAll(Current(h), c.writes)
    ensures Flatten(h + [c]) == Flatten(h) + c.writes
  {
    assert (h + [c])[..|h|] == h;
  }

  /** Commits that come later are folded over what was committed before. */
  lemma {:induction false} LaterCommits(h: seq<Commit>, later: seq<Commit>)
    ensures Current(h + later) == ApplyAll(Current(h), Flatten(later))
    ensures Flatten(h + later) == Flatten(h) + Flatten(later)
    decreases |later|
  {
    if later == [] {
      assert h + later == h;
    } else {
      var n := |later| - 1;
      assert (h + later)[..|h + later| - 1] == h + later[..n];
      LaterCommits(h, later[..n]);
      ApplyAllAppend(Current(h), Flatten(later[..n]), later[n].writes);
      Regroup(Flatten(h), Flatten(later[..n]), later[n].writes);
    }
  }

  /** The committed state is the fold of the flattened history. */
  lemma {:induction false} CurrentIsFold(h: seq<Commit>)
    ensures Current(h) == ApplyAll(map[], Flatten(h))
  {
    if h == [] {
    } else {
      CurrentIsFold(h[..|h| - 1]);
      ApplyAllAppend(map[], Flatten(h[..|h| - 1]), h[|h| - 1].writes);
    }
  }

  // ----- Replay -----------------------------------------------------------------------------

  /** One replayed operation: a transaction of its own, begun, written and committed. */
  function ReplayOp(db: Db, op: WriteOp): Db {
    var (begun, t) := BeginTxn(db);
    CommitTxn(begun, t.(writeSet := [op])).0
  }

  function ReplayAll(ops: seq<WriteOp>): Db {
    if ops == [] then EMPTY_DB else ReplayOp(ReplayAll(ops[..|ops| - 1]), ops[|ops| - 1])
  }

  /** The history a replay leaves: one commit for each operation. */
  function ReplayHistory(ops: seq<WriteOp>): seq<Commit> {
    if ops == [] then []
    else
      var db := ReplayAll(ops[..|ops| - 1]);
      var (begun, t) := BeginTxn(db);
      ReplayHistory(ops[..|ops| - 1]) + [CommitOf(t.(writeSet := [ops[|ops| - 1]]), SaturatingSucc(db.clock))]
  }

  /** A fresh transaction never conflicts. */
  lemma FreshNeverConflicts(db: Db, h: seq<Commit>, horizon: nat, op: WriteOp)
    requires Refines(db, h, horizon)
    ensures var (begun, t) := BeginTxn(db);
            CanCommit(begun, t.(writeSet := [op])).Ok?
  {
    var (begun, t) := BeginTxn(db);
    BeginRefines(db, h, horizon);
    ConflictIsExact(begun, h, horizon, t.(writeSet := [op]));
  }

  lemma {:induction false} ReplayRefines(ops: seq<WriteOp>)
    ensures Refines(ReplayAll(ops), ReplayHistory(ops), 0)
    ensures Flatten(ReplayHistory(ops)) == ops
  {
    if ops == [] {
    } else {
      var n := |ops| - 1;
      ReplayRefines(ops[..n]);
      ReplayStep(ReplayAll(ops[..n]), ReplayHistory(ops[..n]), ops[n]);
      FrontAndLast(ops);
    }
  }

  lemma ReplayStep(db: Db, h: seq<Commit>, op: WriteOp)
    requires Refines(db, h, 0)
    ensures var t := BeginTxn(db).1;
            var h' := h + [CommitOf(t.(writeSet := [op]), SaturatingSucc(db.clock))];
            Refines(ReplayOp(db, op), h', 0) && Flatten(h') == Flatten(h) + [op]
  {
    var (begun, t) := BeginTxn(db);
    var c := CommitOf(t.(writeSet := [op]), SaturatingSucc(db.clock));
    FreshNeverConflicts(db, h, 0, op);
    BeginRefines(db, h, 0);
    CommitRefines(begun, h, 0, t.(writeSet := [op]));
    HistorySnoc(h, c);
  }

  lemma FrontAndLast<T>(q: seq<T>)
    requires q != []
    ensures q == q[..|q| - 1] + [q[|q| - 1]]
  {
  }

  /**
   Recovery: a transaction begun after replaying any prefix of a log reads, for every record, the
   fold of the operations in that prefix.
   */
  lemma ReplayPrefixIsFold(es: seq<WalEntry>, n: nat, codec: Codec, rid: nat)
    requires n <= |es|
    ensures var ops := Logged(es[..n], codec);
            var (db, t) := BeginTxn(ReplayAll(ops));
            ReadTxn(db, t, rid) == Lookup(ApplyAll(map[], ops), rid)
  {
    var ops := Logged(es[..n], codec);
    ReplayRefines(ops);
    var (db, t) := BeginTxn(ReplayAll(ops));
    CurrentIsFold(ReplayHistory(ops));
    FreshReadsCurrent(ReplayAll(ops), ReplayHistory(ops), 0, rid);
  }

  /** A fresh transaction reads the fold of the whole history. */
  lemma FreshReadsCurrent(db: Db, h: seq<Commit>, horizon: nat, rid: nat)
    requires Refines(db, h, horizon)
    ensures var (begun, t) := BeginTxn(db); ReadTxn(begun, t, rid) == Lookup(Current(h), rid)
  {
    FreshSnapshotSeesCurrent(h, db.clock);
  }

  /** At a commit boundary the recovered state is the committed state before the crash. */
  lemma RecoveredIsCommitted(es: seq<WalEntry>, codec: Codec, db: Db, h: seq<Commit>, horizon: nat, rid: nat)
    requires Refines(db, h, horizon) && Logged(es, codec) == Flatten(h)
    ensures var (before, t) := BeginTxn(db);
            var (after, u) := BeginTxn(ReplayAll(Logged(es, codec)));
            ReadTxn(after, u, rid) == ReadTxn(before, t, rid)
  {
    FreshReadsCurrent(db, h, horizon, rid);
    CurrentIsFold(h);
    assert es[..|es|] == es;
    ReplayPrefixIsFold(es, |es|, codec, rid);
  }

  // ----- Logging a write set ----------------------------------------------------------------

  predicate Fits(op: WriteOp, txnId: nat, codec: Codec) {
    |codec.encode(PayloadOf(txnId, op))| <= U32_MAX
  }

  /** How many operations of a write set can be logged: up to the first that is too large to frame. */
  function Fitting(ops: seq<WriteOp>, txnId: nat, codec: Codec): (k: nat)
    ensures k <= |ops|
    ensures forall i :: 0 <= i < k ==> Fits(ops[i], txnId, codec)
    ensures k < |ops| ==> !Fits(ops[k], txnId, codec)
  {
    if ops == [] || !Fits(ops[0], txnId, codec) then 0
    else 1 + Fitting(ops[1..], txnId, codec)
  }

  /**
   Where the files fail a commit: on writing the strand of an operation that is in the log already,
   or on the flush and syncs after all of them.
   */
  datatype Fault = NoFault | StrandWrite(at: nat) | FlushOrSync

  /** The operations of a commit that reach the log. */
  function Reach(ops: seq<WriteOp>, txnId: nat, codec: Codec, fault: Fault): (k: nat)
    ensures k <= |ops|
  {
    var k := Fitting(ops, txnId, codec);
    if fault.StrandWrite? && fault.at < k then fault.at + 1 else k
  }

  /** The fault strikes a commit of `n` operations, all of which can be framed. */
  predicate Strikes(fault: Fault, n: nat) {
    fault.FlushOrSync? || (fault.StrandWrite? && fault.at < n)
  }

  /**
   The operations a failed commit leaves in the log belong to no commit, and recovery applies them,
   before those of the commits that came later: it still reads the committed state iff the last of them
   on each record that no later commit wrote did nothing new to it.
   */
  lemma TornIsHarmlessIff(h: seq<Commit>, ops: seq<WriteOp>, later: seq<WriteOp>)
    ensures ApplyAll(map[], Flatten(h) + ops + later) == ApplyAll(Current(h), later)
            <==> forall rid :: Wrote(ops, rid) && !Wrote(later, rid) ==>
                   LastWrite(ops, rid).value.Outcome() == Lookup(Current(h), rid)
  {
    var torn, recovered := ApplyAll(Current(h), ops), ApplyAll(ApplyAll(Current(h), ops), later);
    CurrentIsFold(h);
    ApplyAllAppend(map[], Flatten(h), ops);
    ApplyAllAppend(map[], Flatten(h) + ops, later);
    forall rid ensures Lookup(recovered, rid) == Lookup(ApplyAll(Current(h), later), rid) <==>
                       (Wrote(ops, rid) && !Wrote(later, rid) ==>
                          LastWrite(ops, rid).value.Outcome() == Lookup(Current(h), rid))
    {
      ApplyAllLastWriteWins(Current(h), ops, rid);
      ApplyAllLastWriteWins(torn, later, rid);
      ApplyAllLastWriteWins(Current(h), later, rid);
    }
    SameLookups(recovered, ApplyAll(Current(h), later));
  }

  /**
   Such a write set: one operation that changes its record, then one too large to log. The commit
   fails, and recovery finds the change.
   */
  lemma FailedCommitLeavesAWrite(h: seq<Commit>, small: WriteOp, large: WriteOp, txnId: nat, codec: Codec)
    requires Fits(small, txnId, codec) && !Fits(large, txnId, codec)
    requires small.Outcome() != Lookup(Current(h), small.recordId)
    ensures var k := Fitting([small, large], txnId, codec);
            && 0 < k < 2
            && ApplyAll(map[], Flatten(h) + [small, large][..k]) != Current(h)
  {
    assert [small, large][1..] == [large];
    assert [small, large][..1] == [small];
    assert Wrote([small], small.recordId);
    TornIsHarmlessIff(h, [small], []);
    assert Flatten(h) + [small] + [] == Flatten(h) + [small];
  }

  // ----- A crash --------------------------------------------------------------------------------

  /** A crash anywhere in an intact log: the truncation error, or the fold of the entries that are whole. */
  lemma CrashInsideLog(l: Log, es: seq<WalEntry>, cut: nat, codec: Codec, rid: nat)
    requires Holds(l, es) && WAL_HEADER_SIZE <= cut <= |l.file|
    ensures var reopened := Open(l.file[..cut], l.hint);
            var whole := es[..WholeEntries(es, cut - WAL_HEADER_SIZE)];
            && (reopened.Err? ==> reopened.error == TruncatedEntry)
            && (reopened.Ok? ==>
                  && Parse(l.file[WAL_HEADER_SIZE..cut]) == Ok(whole)
                  && var (db, t) := BeginTxn(ReplayAll(Logged(whole, codec)));
                     ReadTxn(db, t, rid) == Lookup(ApplyAll(map[], Logged(whole, codec)), rid))
  {
    CutOpens(l.file, l.hint, es, cut);
    ReplayPrefixIsFold(es, WholeEntries(es, cut - WAL_HEADER_SIZE), codec, rid);
  }
}
