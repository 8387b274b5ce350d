/** WAL-stream replication: a replica that pulls batches from its checkpoint on and applies them in order. */
module Replication {
  import opened Wrappers
  import opened Bytes
  import opened WriteAheadLog

  datatype ReplicationError =
    | OutOfOrderSourceSequence(got: nat, expectedMin: nat)
    | ProcessorFailed
    | NotPersisted
    | WalFailed(error: WalError)

  datatype Report = Report(applied: nat, skippedReplay: nat, checkpointAfter: nat)

  /** What the replica has applied, its checkpoint in memory, and the one in the checkpoint file. */
  datatype Replica = Replica(applied: seq<WalEntry>, checkpoint: nat, saved: nat)

  const FRESH_REPLICA := Replica([], 0, 0)

  // ----- Applying a batch -------------------------------------------------------------------

  /** The loop state of `apply_batch`. */
  datatype Progress = Progress(applied: seq<WalEntry>, checkpoint: nat, expectedMin: nat,
                               count: nat, skipped: nat, error: Option<ReplicationError>)

  function Advance(p: Progress, e: WalEntry, accepts: WalEntry -> bool): Progress {
    if e.sequence <= p.checkpoint then p.(skipped := p.skipped + 1)
    else if e.sequence < p.expectedMin then p.(error := Some(OutOfOrderSourceSequence(e.sequence, p.expectedMin)))
    else if !accepts(e) then p.(error := Some(ProcessorFailed))
    else p.(applied := p.applied + [e], checkpoint := e.sequence, expectedMin := SaturatingSucc(e.sequence),
            count := p.count + 1)
  }

  /** The loop, which stops at the first error. */
  function Drain(r: Replica, batch: seq<WalEntry>, accepts: WalEntry -> bool): Progress {
    if batch == [] then Progress(r.applied, r.checkpoint, SaturatingSucc(r.checkpoint), 0, 0, None)
    else
      var p := Drain(r, batch[..|batch| - 1], accepts);
      if p.error.Some? then p else Advance(p, batch[|batch| - 1], accepts)
  }

  /** Only a batch that went through, flush and all, reaches the checkpoint file. */
  function ApplyBatch(r: Replica, batch: seq<WalEntry>, accepts: WalEntry -> bool, persists: bool)
    : (Replica, Result<Report, ReplicationError>)
  {
    var p := Drain(r, batch, accepts);
    match p.error
    case Some(e) => (Replica(p.applied, p.checkpoint, r.saved), Err(e))
    case None =>
      if persists then (Replica(p.applied, p.checkpoint, p.checkpoint), Ok(Report(p.count, p.skipped, p.checkpoint)))
      else (Replica(p.applied, p.checkpoint, r.saved), Err(NotPersisted))
  }

  lemma {:induction false} ErrorSticks(r: Replica, batch: seq<WalEntry>, i: nat, accepts: WalEntry -> bool)
    requires i <= |batch| && Drain(r, batch[..i], accepts).error.Some?
    ensures Drain(r, batch, accepts) == Drain(r, batch[..i], accepts)
  {
    if i < |batch| {
      var front := batch[..|batch| - 1];
      assert front[..i] == batch[..i];
      ErrorSticks(r, front, i, accepts);
    } else {
      assert batch[..i] == batch;
    }
  }

  /** The out-of-order error cannot be raised, by any batch: a gap is applied as it comes. */
  lemma {:induction false} OutOfOrderIsUnreachable(r: Replica, batch: seq<WalEntry>, accepts: WalEntry -> bool)
    requires forall i :: 0 <= i < |batch| ==> batch[i].sequence <= U64_MAX
    ensures var p := Drain(r, batch, accepts);
            p.expectedMin == SaturatingSucc(p.checkpoint) && (p.error.Some? ==> p.error.value == ProcessorFailed)
  {
    if batch == [] {
    } else {
      OutOfOrderIsUnreachable(r, batch[..|batch| - 1], accepts);
    }
  }

  /** A batch that went through accounts for every entry, and leaves the checkpoint at or past all of them. */
  lemma {:induction false} BatchIsAccountedFor(r: Replica, batch: seq<WalEntry>, accepts: WalEntry -> bool)
    ensures var p := Drain(r, batch, accepts);
            && r.checkpoint <= p.checkpoint
            && |p.applied| == |r.applied| + p.count
            && (p.error.None? ==> p.count + p.skipped == |batch|
                                  && forall i :: 0 <= i < |batch| ==> batch[i].sequence <= p.checkpoint)
  {
    if batch == [] {
    } else {
      BatchIsAccountedFor(r, batch[..|batch| - 1], accepts);
    }
  }

  lemma {:induction false} DrainOnlyAdds(r: Replica, batch: seq<WalEntry>, accepts: WalEntry -> bool)
    ensures r.applied <= Drain(r, batch, accepts).applied
  {
    if batch == [] {
    } else {
      DrainOnlyAdds(r, batch[..|batch| - 1], accepts);
    }
  }

  lemma {:induction false} OldEntriesAreSkipped(r: Replica, batch: seq<WalEntry>, accepts: WalEntry -> bool)
    requires forall i :: 0 <= i < |batch| ==> batch[i].sequence <= r.checkpoint
    ensures Drain(r, batch, accepts)
         == Progress(r.applied, r.checkpoint, SaturatingSucc(r.checkpoint), 0, |batch|, None)
  {
    if batch == [] {
    } else {
      OldEntriesAreSkipped(r, batch[..|batch| - 1], accepts);
    }
  }

  /** Delivering a batch again, whatever came in between, applies nothing and skips all of it. */
  lemma ReplayedBatchIsSkipped(r: Replica, batch: seq<WalEntry>, between: seq<WalEntry>, accepts: WalEntry -> bool,
                               persists: bool)
    requires ApplyBatch(r, batch, accepts, true).1.Ok?
    ensures var later := ApplyBatch(ApplyBatch(r, batch, accepts, true).0, between, accepts, persists).0;
            var again := ApplyBatch(later, batch, accepts, true);
            again.0.applied == later.applied && again.1 == Ok(Report(0, |batch|, later.checkpoint))
  {
    var first := ApplyBatch(r, batch, accepts, true).0;
    BatchIsAccountedFor(r, batch, accepts);
    BatchIsAccountedFor(first, between, accepts);
    var later := ApplyBatch(first, between, accepts, persists).0;
    OldEntriesAreSkipped(later, batch, accepts);
  }

  // ----- Fetching ---------------------------------------------------------------------------

  function Fetched(es: seq<WalEntry>, checkpoint: nat, maxEntries: nat): seq<WalEntry> {
    AtMost(From(es, SaturatingSucc(checkpoint)), Some(maxEntries))
  }

  /** A source log as a `Wal` makes it: sequences go up from 1, with room for another. */
  ghost predicate Ascending(es: seq<WalEntry>) {
    Increasing(es) && forall i :: 0 <= i < |es| ==> 1 <= es[i].sequence < U64_MAX
  }

  lemma AscendingFront(es: seq<WalEntry>)
    requires Ascending(es) && es != []
    ensures Ascending(es[..|es| - 1])
  {
  }

  lemma {:induction false} FromDropsPrefix(es: seq<WalEntry>, n: nat)
    requires Ascending(es) && n <= |es|
    ensures From(es, LastSequence(es[..n]) + 1) == es[n..]
    decreases |es|
  {
    if n == |es| {
      NothingFrom(es, LastSequence(es) + 1);
      assert es[..n] == es;
    } else {
      var m := |es| - 1;
      assert es[..m][..n] == es[..n];
      AscendingFront(es);
      FromDropsPrefix(es[..m], n);
      AscendingLast(es, n, m);
      assert es[n..] == es[..m][n..] + [es[m]];
    }
  }

  lemma {:induction false} NothingFrom(es: seq<WalEntry>, from: nat)
    requires forall i :: 0 <= i < |es| ==> es[i].sequence < from
    ensures From(es, from) == []
  {
    if es == [] {
    } else {
      NothingFrom(es[..|es| - 1], from);
    }
  }

  /** A fetch from the checkpoint of a prefix is the stretch of the log that follows it. */
  lemma FetchIsSegment(es: seq<WalEntry>, n: nat, maxEntries: nat)
    requires Ascending(es) && n <= |es|
    ensures Fetched(es, LastSequence(es[..n]), maxEntries) == es[n..Min(n + maxEntries, |es|)]
  {
    FromDropsPrefix(es, n);
    assert LastSequence(es[..n]) < U64_MAX;
    assert es[n..][..Min(maxEntries, |es| - n)] == es[n..Min(n + maxEntries, |es|)];
  }

  // ----- Delivering a stretch of the log ----------------------------------------------------

  ghost predicate InStep(r: Replica, source: seq<WalEntry>) {
    r.applied <= source && r.checkpoint == LastSequence(r.applied)
  }

  lemma AscendingLast(es: seq<WalEntry>, n: nat, i: nat)
    requires Ascending(es) && n <= |es| && i < |es|
    ensures es[i].sequence <= LastSequence(es[..n]) <==> i < n
  {
  }

  lemma StretchSnoc(source: seq<WalEntry>, a: nat, z: nat)
    requires a < z <= |source|
    ensures var batch := source[a..z];
            batch[..|batch| - 1] == source[a..z - 1] && batch[|batch| - 1] == source[z - 1]
  {
  }

  /** The loop, in step with the source and past its first `upto` entries unless an error stopped it. */
  ghost predicate OnTrack(p: Progress, source: seq<WalEntry>, start: seq<WalEntry>, upto: nat) {
    && start <= p.applied <= source
    && p.checkpoint == LastSequence(p.applied) && p.expectedMin == SaturatingSucc(p.checkpoint)
    && (p.error.None? ==> |p.applied| == Max(|start|, upto))
  }

  /** The next entry of the source is applied; one already applied is skipped. */
  lemma NextEntry(p: Progress, source: seq<WalEntry>, start: seq<WalEntry>, i: nat, accepts: WalEntry -> bool)
    requires Ascending(source) && i < |source| && p.error.None? && OnTrack(p, source, start, i)
    ensures OnTrack(Advance(p, source[i], accepts), source, start, i + 1)
  {
    assert p.applied == source[..|p.applied|];
    AscendingLast(source, |p.applied|, i);
  }

  /** A stretch that starts inside what is applied extends it to the stretch's end, or to the first refusal. */
  lemma {:induction false} StretchExtends(r: Replica, source: seq<WalEntry>, a: nat, z: nat, accepts: WalEntry -> bool)
    requires Ascending(source) && InStep(r, source)
    requires a <= z <= |source| && a <= |r.applied|
    ensures OnTrack(Drain(r, source[a..z], accepts), source, r.applied, z)
    decreases z
  {
    if a == z {
      assert source[a..z] == [];
    } else {
      StretchSnoc(source, a, z);
      StretchExtends(r, source, a, z - 1, accepts);
      var p := Drain(r, source[a..z - 1], accepts);
      if p.error.None? {
        NextEntry(p, source, r.applied, z - 1, accepts);
      }
    }
  }

  lemma {:induction false} GapIsApplied(r: Replica, source: seq<WalEntry>, a: nat, z: nat)
    requires Ascending(source) && InStep(r, source)
    requires |r.applied| < a <= z <= |source|
    ensures var p := Drain(r, source[a..z], _ => true);
            && p.error.None? && p.applied == r.applied + source[a..z]
            && p.checkpoint == (if a == z then r.checkpoint else source[z - 1].sequence)
            && p.expectedMin == SaturatingSucc(p.checkpoint)
    decreases z
  {
    if a < z {
      var batch := source[a..z];
      StretchSnoc(source, a, z);
      GapIsApplied(r, source, a, z - 1);
      assert r.applied == source[..|r.applied|];
      AscendingLast(source, |r.applied|, z - 1);
      assert r.applied + source[a..z - 1] + [source[z - 1]] == r.applied + batch;
    } else {
      assert source[a..z] == [] && r.applied + [] == r.applied;
    }
  }

  /**
   A stretch of the source log leaves the replica a prefix of the source iff it starts no later
   than where the replica stands, or is empty.
   */
  lemma DeliveryKeepsStepIff(r: Replica, source: seq<WalEntry>, a: nat, z: nat, persists: bool)
    requires Ascending(source) && InStep(r, source) && a <= z <= |source|
    ensures InStep(ApplyBatch(r, source[a..z], _ => true, persists).0, source) <==> a <= |r.applied| || a == z
  {
    if a <= |r.applied| {
      StretchExtends(r, source, a, z, _ => true);
    } else {
      GapIsApplied(r, source, a, z);
      var n := |r.applied|;
      var after := ApplyBatch(r, source[a..z], _ => true, persists).0;
      assert a < z ==> after.applied[n] == source[a] && source[n].sequence < source[a].sequence;
    }
  }

  // ----- Runs -------------------------------------------------------------------------------

  /**
   The source log, the replica, every checkpoint the replica has had, and every batch ever fetched,
   all of which stay deliverable.
   */
  datatype StreamWorld = StreamWorld(source: Log, entries: seq<WalEntry>, replica: Replica,
                                     checkpoints: seq<nat>, batches: seq<seq<WalEntry>>)

  datatype StreamStep =
    | SourceAppends(payload: bytes)
    | SourceReopens
    | Fetch(checkpoint: nat, maxEntries: nat)
    | Deliver(batch: nat, accepts: WalEntry -> bool, persists: bool)
    | ReplicaReopens

  const FRESH_STREAM := StreamWorld(Open([], None).value, [], FRESH_REPLICA, [0], [])

  function NextStream(w: StreamWorld, s: StreamStep): StreamWorld {
    match s
    case SourceAppends(payload) =>
      var (log, r) := Append(w.source, payload);
      if r.Ok? then w.(source := log, entries := w.entries + [WalEntry(r.value, payload)]) else w
    case SourceReopens =>
      var r := Open(w.source.file, w.source.hint);
      if r.Ok? then w.(source := r.value) else w
    case Fetch(k, maxEntries) =>
      if k < |w.checkpoints| then
        w.(batches := w.batches + [Fetched(w.entries, w.checkpoints[k], maxEntries)])
      else w
    case Deliver(k, accepts, persists) =>
      if k < |w.batches| then
        var replica := ApplyBatch(w.replica, w.batches[k], accepts, persists).0;
        w.(replica := replica, checkpoints := w.checkpoints + [replica.checkpoint])
      else w
    case ReplicaReopens => w.(replica := w.replica.(checkpoint := w.replica.saved))
  }

  /** The replica does not restart while entries are applied whose checkpoint is not saved. */
  predicate CleanRestart(w: StreamWorld, s: StreamStep) {
    s.ReplicaReopens? ==> w.replica.saved == w.replica.checkpoint
  }

  function RunStream(steps: seq<StreamStep>): StreamWorld {
    if |steps| == 0 then FRESH_STREAM
    else NextStream(RunStream(steps[..|steps| - 1]), steps[|steps| - 1])
  }

  predicate CleanRun(steps: seq<StreamStep>) {
    |steps| == 0 ||
    (&& CleanRun(steps[..|steps| - 1])
     && CleanRestart(RunStream(steps[..|steps| - 1]), steps[|steps| - 1]))
  }

  ghost predicate IsCheckpoint(c: nat, applied: seq<WalEntry>) {
    exists n :: 0 <= n <= |applied| && c == LastSequence(applied[..n])
  }

  /** A stretch of the source that starts inside what the replica has applied. */
  ghost predicate IsStretch(batch: seq<WalEntry>, source: seq<WalEntry>, applied: nat) {
    exists a, z :: 0 <= a <= applied && a <= z <= |source| && batch == source[a..z]
  }

  ghost predicate StreamInv(w: StreamWorld) {
    && Holds(w.source, w.entries) && Ascending(w.entries)
    && InStep(w.replica, w.entries)
    && (forall k :: 0 <= k < |w.checkpoints| ==> IsCheckpoint(w.checkpoints[k], w.replica.applied))
    && (forall k :: 0 <= k < |w.batches| ==> IsStretch(w.batches[k], w.entries, |w.replica.applied|))
  }

  lemma StretchSurvives(batch: seq<WalEntry>, source: seq<WalEntry>, applied: nat, source': seq<WalEntry>,
                        applied': nat)
    requires IsStretch(batch, source, applied) && source <= source' && applied <= applied'
    ensures IsStretch(batch, source', applied')
  {
    var a, z :| 0 <= a <= applied && a <= z <= |source| && batch == source[a..z];
    assert source'[a..z] == batch;
  }

  lemma CheckpointSurvives(c: nat, applied: seq<WalEntry>, applied': seq<WalEntry>)
    requires IsCheckpoint(c, applied) && applied <= applied'
    ensures IsCheckpoint(c, applied')
  {
    var n :| 0 <= n <= |applied| && c == LastSequence(applied[..n]);
    assert applied'[..n] == applied[..n];
  }

  lemma AppendKeepsStream(w: StreamWorld, payload: bytes)
    requires StreamInv(w) && w.source.next < U64_MAX && |payload| <= U32_MAX
    ensures StreamInv(NextStream(w, SourceAppends(payload)))
  {
    var e := WalEntry(w.source.next, payload);
    AppendHolds(w.source, w.entries, payload);
    assert w.entries <= w.entries + [e];
    forall k | 0 <= k < |w.batches| ensures IsStretch(w.batches[k], w.entries + [e], |w.replica.applied|) {
      StretchSurvives(w.batches[k], w.entries, |w.replica.applied|, w.entries + [e], |w.replica.applied|);
    }
  }

  lemma FetchKeepsStream(w: StreamWorld, k: nat, maxEntries: nat)
    requires StreamInv(w) && k < |w.checkpoints|
    ensures StreamInv(NextStream(w, Fetch(k, maxEntries)))
  {
    var n :| 0 <= n <= |w.replica.applied| && w.checkpoints[k] == LastSequence(w.replica.applied[..n]);
    assert w.replica.applied[..n] == w.entries[..n];
    FetchIsSegment(w.entries, n, maxEntries);
  }

  lemma DeliverKeepsStream(w: StreamWorld, k: nat, accepts: WalEntry -> bool, persists: bool)
    requires StreamInv(w) && k < |w.batches|
    ensures StreamInv(NextStream(w, Deliver(k, accepts, persists)))
  {
    var w' := NextStream(w, Deliver(k, accepts, persists));
    var a, z :| 0 <= a <= |w.replica.applied| && a <= z <= |w.entries| && w.batches[k] == w.entries[a..z];
    StretchExtends(w.replica, w.entries, a, z, accepts);
    forall i | 0 <= i < |w'.checkpoints| ensures IsCheckpoint(w'.checkpoints[i], w'.replica.applied) {
      if i < |w.checkpoints| {
        CheckpointSurvives(w.checkpoints[i], w.replica.applied, w'.replica.applied);
      } else {
        assert w'.replica.applied[..|w'.replica.applied|] == w'.replica.applied;
      }
    }
    forall i | 0 <= i < |w.batches| ensures IsStretch(w.batches[i], w.entries, |w'.replica.applied|) {
      StretchSurvives(w.batches[i], w.entries, |w.replica.applied|, w.entries, |w'.replica.applied|);
    }
  }

  lemma NextStreamKeepsInv(w: StreamWorld, s: StreamStep)
    requires StreamInv(w) && CleanRestart(w, s) && w.source.next < U64_MAX
    ensures StreamInv(NextStream(w, s)) && NextStream(w, s).source.next <= w.source.next + 1
  {
    match s
    case SourceAppends(payload) =>
      if |payload| <= U32_MAX {
        AppendKeepsStream(w, payload);
      }
    case SourceReopens => HoldsIsRead(w.source, w.entries);
    case Fetch(k, maxEntries) =>
      if k < |w.checkpoints| {
        FetchKeepsStream(w, k, maxEntries);
      }
    case Deliver(k, accepts, persists) =>
      if k < |w.batches| {
        DeliverKeepsStream(w, k, accepts, persists);
      }
    case ReplicaReopens =>
  }

  lemma {:induction false} RunKeepsStream(steps: seq<StreamStep>)
    requires |steps| < U64_MAX && CleanRun(steps)
    ensures StreamInv(RunStream(steps)) && RunStream(steps).source.next <= |steps| + 1
  {
    if |steps| == 0 {
      OpenFreshHolds(None);
      assert LastSequence(FRESH_REPLICA.applied[..0]) == 0;
    } else {
      RunKeepsStream(steps[..|steps| - 1]);
      NextStreamKeepsInv(RunStream(steps[..|steps| - 1]), steps[|steps| - 1]);
    }
  }

  /**
   Under every schedule of appends, fetches from any checkpoint the replica has had, and deliveries
   of any fetched batch, however duplicated, delayed or reordered, where every delivery has entries of
   its own that processing refuses and may fail to be persisted: what the replica has applied is a
   prefix of the source log, and its checkpoint is that prefix's last sequence.
   */
  lemma ReplicaIsPrefix(steps: seq<StreamStep>)
    requires |steps| < U64_MAX && CleanRun(steps)
    ensures var w := RunStream(steps);
            && |w.source.file| >= WAL_HEADER_SIZE
            && Parse(w.source.file[WAL_HEADER_SIZE..]) == Ok(w.entries)
            && w.replica.applied <= w.entries
            && w.replica.checkpoint == LastSequence(w.replica.applied)
  {
    RunKeepsStream(steps);
    var w := RunStream(steps);
    HoldsIsRead(w.source, w.entries);
  }

  // ----- Restarts ---------------------------------------------------------------------------

  /** What the replica answers to a delivery. */
  function Answered(w: StreamWorld, k: nat, accepts: WalEntry -> bool, persists: bool): Result<Report, ReplicationError>
    requires k < |w.batches|
  {
    ApplyBatch(w.replica, w.batches[k], accepts, persists).1
  }

  /** Since the last delivery that went through, no delivery has applied anything. */
  predicate NothingUnsaved(steps: seq<StreamStep>) {
    |steps| == 0 ||
    var front, s := steps[..|steps| - 1], steps[|steps| - 1];
    var w := RunStream(front);
    if s.Deliver? && s.batch < |w.batches| then
      || Answered(w, s.batch, s.accepts, s.persists).Ok?
      || (NothingUnsaved(front) && NextStream(w, s).replica.applied == w.replica.applied)
    else NothingUnsaved(front)
  }

  /** The checkpoint file is current iff that is so. */
  lemma {:induction false} SavedIff(steps: seq<StreamStep>)
    requires |steps| < U64_MAX && CleanRun(steps)
    ensures var r := RunStream(steps).replica; r.saved <= r.checkpoint
    ensures var r := RunStream(steps).replica; r.saved == r.checkpoint <==> NothingUnsaved(steps)
  {
    if |steps| == 0 {
    } else {
      var front, s := steps[..|steps| - 1], steps[|steps| - 1];
      SavedIff(front);
      RunKeepsStream(front);
      RunKeepsStream(steps);
      if s.Deliver? && s.batch < |RunStream(front).batches| {
        DeliverySaves(RunStream(front), s);
      }
    }
  }

  lemma DeliverySaves(w: StreamWorld, s: StreamStep)
    requires s.Deliver? && s.batch < |w.batches| && StreamInv(w) && StreamInv(NextStream(w, s))
    ensures var r, r' := w.replica, NextStream(w, s).replica;
            && r.checkpoint <= r'.checkpoint && (r'.checkpoint == r.checkpoint <==> r'.applied == r.applied)
            && (Answered(w, s.batch, s.accepts, s.persists).Ok? ==> r'.saved == r'.checkpoint)
            && (Answered(w, s.batch, s.accepts, s.persists).Err? ==> r'.saved == r.saved)
  {
    var r' := NextStream(w, s).replica;
    BatchIsAccountedFor(w.replica, w.batches[s.batch], s.accepts);
    DrainOnlyAdds(w.replica, w.batches[s.batch], s.accepts);
    assert w.replica.applied == w.entries[..|w.replica.applied|] && r'.applied == w.entries[..|r'.applied|];
    if r'.applied != w.replica.applied {
      AscendingLast(w.entries, |w.replica.applied|, |r'.applied| - 1);
    }
  }

  /** Every restart of the run finds nothing unsaved. */
  predicate RestartsSaved(steps: seq<StreamStep>) {
    |steps| == 0 ||
    (&& RestartsSaved(steps[..|steps| - 1])
     && (steps[|steps| - 1].ReplicaReopens? ==> NothingUnsaved(steps[..|steps| - 1])))
  }

  /** A run is clean iff the replica restarts only where its last delivery that applied anything went through. */
  lemma {:induction false} CleanRunIff(steps: seq<StreamStep>)
    requires |steps| < U64_MAX
    ensures CleanRun(steps) <==> RestartsSaved(steps)
  {
    if |steps| == 0 {
    } else {
      CleanRunIff(steps[..|steps| - 1]);
      if CleanRun(steps[..|steps| - 1]) {
        SavedIff(steps[..|steps| - 1]);
      }
    }
  }

  /** In such a run no entry is applied twice, whatever is fetched and delivered after the restarts. */
  lemma AppliedOnce(steps: seq<StreamStep>)
    requires |steps| < U64_MAX && RestartsSaved(steps)
    ensures var w := RunStream(steps);
            && w.replica.applied <= w.entries
            && forall i, j :: 0 <= i < j < |w.replica.applied| ==>
                 w.replica.applied[i].sequence < w.replica.applied[j].sequence
  {
    CleanRunIff(steps);
    RunKeepsStream(steps);
  }

  lemma RepeatIsNoPrefix(applied: seq<WalEntry>, source: seq<WalEntry>, n: nat)
    requires Ascending(source) && applied <= source && n < |applied|
    ensures !(applied + [source[n]] <= source)
  {
    if |applied| < |source| {
      assert source[n].sequence < source[|applied|].sequence;
    }
  }

  /** A restart keeps the replica in step with the source iff the saved checkpoint is the one in memory. */
  lemma RestartKeepsStepIff(r: Replica, source: seq<WalEntry>)
    requires Ascending(source) && InStep(r, source) && r.saved <= r.checkpoint
    requires exists n :: 0 <= n <= |r.applied| && r.saved == LastSequence(source[..n])
    ensures var restarted := r.(checkpoint := r.saved);
            (forall m :: InStep(ApplyBatch(restarted, Fetched(source, restarted.checkpoint, m), _ => true, true).0,
                                source))
            <==> r.saved == r.checkpoint
  {
    var n :| 0 <= n <= |r.applied| && r.saved == LastSequence(source[..n]);
    var restarted := r.(checkpoint := r.saved);
    assert r.applied == source[..|r.applied|];
    if r.saved == r.checkpoint {
      forall m: int | m >= 0
        ensures InStep(ApplyBatch(restarted, Fetched(source, restarted.checkpoint, m), _ => true, true).0, source) {
        FetchIsSegment(source, n, m);
        StretchExtends(restarted, source, n, Min(n + m, |source|), _ => true);
      }
    } else {
      FetchIsSegment(source, n, 1);
      var batch := [source[n]];
      assert source[n..n + 1] == batch;
      assert batch[..0] == [];
      AscendingLast(source, n, n);
      var p := Drain(restarted, batch, _ => true);
      assert p == Advance(Drain(restarted, [], _ => true), source[n], _ => true);
      assert p.applied == r.applied + [source[n]];
      RepeatIsNoPrefix(r.applied, source, n);
      assert !InStep(ApplyBatch(restarted, Fetched(source, restarted.checkpoint, 1), _ => true, true).0, source);
    }
  }

  /** One round of polling: fetch from the current checkpoint, deliver. */
  function Poll(r: Replica, source: seq<WalEntry>, maxEntries: nat): Replica {
    ApplyBatch(r, Fetched(source, r.checkpoint, maxEntries), _ => true, true).0
  }

  function Polls(r: Replica, source: seq<WalEntry>, maxEntries: nat, rounds: nat): Replica {
    if rounds == 0 then r else Poll(Polls(r, source, maxEntries, rounds - 1), source, maxEntries)
  }

  /** Polling makes progress: each round applies a full batch until the replica holds the whole source. */
  lemma {:induction false} PollingCatchesUp(r: Replica, source: seq<WalEntry>, maxEntries: nat, rounds: nat)
    requires Ascending(source) && InStep(r, source)
    ensures var after := Polls(r, source, maxEntries, rounds);
            InStep(after, source) && |after.applied| == Min(|r.applied| + rounds * maxEntries, |source|)
    decreases rounds
  {
    if rounds == 0 {
    } else {
      PollingCatchesUp(r, source, maxEntries, rounds - 1);
      PollAdvances(Polls(r, source, maxEntries, rounds - 1), source, maxEntries);
      assert rounds * maxEntries == (rounds - 1) * maxEntries + maxEntries;
    }
  }

  lemma PollAdvances(r: Replica, source: seq<WalEntry>, maxEntries: nat)
    requires Ascending(source) && InStep(r, source)
    ensures var after := Poll(r, source, maxEntries);
            InStep(after, source) && |after.applied| == Min(|r.applied| + maxEntries, |source|)
  {
    var n := |r.applied|;
    assert r.applied == source[..n];
    FetchIsSegment(source, n, maxEntries);
    StretchExtends(r, source, n, Min(n + maxEntries, |source|), _ => true);
    NeverRefused(r, source[n..Min(n + maxEntries, |source|)]);
  }

  lemma {:induction false} NeverRefused(r: Replica, batch: seq<WalEntry>)
    requires forall i :: 0 <= i < |batch| ==> batch[i].sequence <= U64_MAX
    ensures var p := Drain(r, batch, _ => true); p.error.None? && p.expectedMin == SaturatingSucc(p.checkpoint)
  {
    if batch == [] {
    } else {
      NeverRefused(r, batch[..|batch| - 1]);
    }
  }

  // ----- As the engine runs it --------------------------------------------------------------

  class WalStreamSource {
    const wal: Wal

    constructor (wal: Wal)
      ensures this.wal == wal
    {
      this.wal := wal;
    }

    /** Any log is read, or reported; from the checkpoint of a prefix the answer is the stretch that follows it. */
    method FetchSince(checkpoint: nat, maxEntries: nat) returns (r: Result<seq<WalEntry>, ReplicationError>)
      requires |wal.file| >= WAL_HEADER_SIZE
      ensures r.Ok? <==> Parse(wal.file[WAL_HEADER_SIZE..]).Ok?
      ensures r.Err? ==> r.error == WalFailed(Parse(wal.file[WAL_HEADER_SIZE..]).error)
      ensures r.Ok? ==> r.value == Fetched(Parse(wal.file[WAL_HEADER_SIZE..]).value, checkpoint, maxEntries)
      ensures r.Ok? ==>
                var es := Parse(wal.file[WAL_HEADER_SIZE..]).value;
                Ascending(es) ==> forall n :: 0 <= n <= |es| && checkpoint == LastSequence(es[..n]) ==>
                  r.value == es[n..Min(n + maxEntries, |es|)]
    {
      var read := wal.ReadEntriesFrom(SaturatingSucc(checkpoint), Some(maxEntries));
      if read.Err? {
        return Err(WalFailed(read.error));
      }
      SegmentsFetched(Parse(wal.file[WAL_HEADER_SIZE..]).value, checkpoint, maxEntries);
      return Ok(read.value);
    }
  }

  lemma SegmentsFetched(es: seq<WalEntry>, checkpoint: nat, maxEntries: nat)
    ensures Ascending(es) ==> forall n :: 0 <= n <= |es| && checkpoint == LastSequence(es[..n]) ==>
              Fetched(es, checkpoint, maxEntries) == es[n..Min(n + maxEntries, |es|)]
  {
    if Ascending(es) {
      forall n | 0 <= n <= |es| && checkpoint == LastSequence(es[..n])
        ensures Fetched(es, checkpoint, maxEntries) == es[n..Min(n + maxEntries, |es|)]
      {
        FetchIsSegment(es, n, maxEntries);
      }
    }
  }

  class WalStreamReplica {
    var applied: seq<WalEntry>
    var checkpoint: nat
    var saved: nat

    ghost function Model(): Replica
      reads this
    {
      Replica(applied, checkpoint, saved)
    }

    /** Opening takes the checkpoint from its file, when there is one. */
    constructor (applied: seq<WalEntry>, saved: Option<nat>)
      ensures var c := if saved.Some? then saved.value else 0; Model() == Replica(applied, c, c)
    {
      this.applied := applied;
      checkpoint := if saved.Some? then saved.value else 0;
      this.saved := if saved.Some? then saved.value else 0;
    }

    /** `persists` says whether the flush and the writing of the checkpoint file go through. */
    method Apply(batch: seq<WalEntry>, accepts: WalEntry -> bool, persists: bool)
      returns (r: Result<Report, ReplicationError>)
      modifies this
      ensures (Model(), r) == ApplyBatch(old(Model()), batch, accepts, persists)
      ensures r.Ok? ==> saved == checkpoint && forall i :: 0 <= i < |batch| ==> batch[i].sequence <= checkpoint
      ensures r.Err? ==> saved == old(saved)
      ensures old(checkpoint) <= checkpoint && old(applied) <= applied
    {
      BatchIsAccountedFor(Model(), batch, accepts);
      DrainOnlyAdds(Model(), batch, accepts);
      var count, skipped := 0, 0;
      var expectedMin := SaturatingSucc(checkpoint);
      ghost var was := Model();
      for i := 0 to |batch|
        invariant saved == old(saved)
        invariant Drain(was, batch[..i], accepts) == Progress(applied, checkpoint, expectedMin, count, skipped, None)
      {
        var entry := batch[i];
        assert batch[..i + 1][..i] == batch[..i];
        if entry.sequence <= checkpoint {
          skipped := skipped + 1;
          continue;
        }
        if entry.sequence < expectedMin {
          ErrorSticks(was, batch, i + 1, accepts);
          return Err(OutOfOrderSourceSequence(entry.sequence, expectedMin));
        }
        if !accepts(entry) {
          ErrorSticks(was, batch, i + 1, accepts);
          return Err(ProcessorFailed);
        }
        applied := applied + [entry];
        checkpoint := entry.sequence;
        expectedMin := SaturatingSucc(entry.sequence);
        count := count + 1;
      }
      assert batch[..|batch|] == batch;
      if !persists {
        return Err(NotPersisted);
      }
      saved := checkpoint;
      return Ok(Report(count, skipped, checkpoint));
    }
  }
}
