/** Version chains: ordered insertion, snapshot visibility, and compaction with a floor. */
module Mvcc {
  import opened Wrappers
  import opened Json

  /** `record == None` is a delete tombstone. */
  datatype VersionEntry = VersionEntry(txnId: nat, ts: nat, record: Option<Record>)

  ghost predicate Sorted(vs: seq<VersionEntry>) {
    forall i, j :: 0 <= i < j < |vs| ==> vs[i].ts <= vs[j].ts
  }

  /** The newest version at or before the snapshot decides. */
  function VisibleAt(vs: seq<VersionEntry>, snapshot: nat): Option<Record> {
    if vs == [] then None
    else if vs[|vs| - 1].ts <= snapshot then vs[|vs| - 1].record
    else VisibleAt(vs[..|vs| - 1], snapshot)
  }

  function LatestTs(vs: seq<VersionEntry>): Option<nat> {
    if vs == [] then None else Some(vs[|vs| - 1].ts)
  }

  /** Index of the first version after `ts`, or the length when there is none. */
  function FirstAfter(vs: seq<VersionEntry>, ts: nat): (k: nat)
    ensures k <= |vs|
    ensures forall i :: 0 <= i < k ==> vs[i].ts <= ts
    ensures k < |vs| ==> vs[k].ts > ts
  {
    if vs == [] || vs[0].ts > ts then 0 else 1 + FirstAfter(vs[1..], ts)
  }

  function Inserted(vs: seq<VersionEntry>, e: VersionEntry): seq<VersionEntry> {
    var k := FirstAfter(vs, e.ts);
    vs[..k] + [e] + vs[k..]
  }

  /** Where the surviving suffix starts after compaction. */
  function CompactionStart(vs: seq<VersionEntry>, oldest: nat, minKeep: nat): (k: nat)
    ensures k <= |vs|
  {
    var tail := FirstAfter(vs, oldest);
    if |vs| <= 1 || tail == 0 then 0
    else if |vs| - (tail - 1) >= Max(minKeep, 1) then tail - 1
    else if |vs| <= minKeep then 0
    else |vs| - minKeep
  }

  function Compacted(vs: seq<VersionEntry>, oldest: nat, minKeep: nat): seq<VersionEntry> {
    vs[CompactionStart(vs, oldest, minKeep)..]
  }

  /** Dropping the first `k` versions leaves a baseline for `oldest` and enough versions. */
  ghost predicate Droppable(vs: seq<VersionEntry>, k: nat, oldest: nat, minKeep: nat) {
    k == 0 || (k < |vs| && vs[k].ts <= oldest && |vs| - k >= minKeep)
  }

  lemma FirstAfterUnique(vs: seq<VersionEntry>, ts: nat, k: nat)
    requires Sorted(vs) && k <= |vs|
    requires k == 0 || vs[k - 1].ts <= ts
    requires k == |vs| || vs[k].ts > ts
    ensures FirstAfter(vs, ts) == k
  {
  }

  /** Appending a version at least as new as all others is what insertion does to a chain's tail. */
  lemma InsertNewest(vs: seq<VersionEntry>, e: VersionEntry)
    requires Sorted(vs)
    requires vs == [] || vs[|vs| - 1].ts <= e.ts
    ensures Inserted(vs, e) == vs + [e]
  {
    FirstAfterUnique(vs, e.ts, |vs|);
  }

  lemma InsertedSorted(vs: seq<VersionEntry>, e: VersionEntry)
    requires Sorted(vs)
    ensures Sorted(Inserted(vs, e))
  {
    var k := FirstAfter(vs, e.ts);
    forall i | k <= i < |vs| ensures vs[i].ts > e.ts {
      if k < i { assert vs[k].ts <= vs[i].ts; }
    }
  }

  /** What a snapshot sees is the version just before the first one after it. */
  lemma {:induction false} VisibleIsBaseline(vs: seq<VersionEntry>, s: nat)
    requires Sorted(vs)
    ensures var k := FirstAfter(vs, s);
            VisibleAt(vs, s) == if k == 0 then None else vs[k - 1].record
  {
    if vs == [] {
    } else {
      var n := |vs| - 1;
      if vs[n].ts <= s {
        FirstAfterUnique(vs, s, |vs|);
      } else {
        var k := FirstAfter(vs[..n], s);
        FirstAfterUnique(vs, s, k);
        VisibleIsBaseline(vs[..n], s);
      }
    }
  }

  /** An inserted version is seen exactly by the snapshots that no later version hides it from. */
  lemma InsertedVisible(vs: seq<VersionEntry>, e: VersionEntry, s: nat)
    requires Sorted(vs)
    ensures VisibleAt(Inserted(vs, e), s) ==
            if e.ts <= s && FirstAfter(vs, s) == FirstAfter(vs, e.ts) then e.record
            else VisibleAt(vs, s)
  {
    var w, m := Inserted(vs, e), FirstAfter(vs, s);
    InsertedFirstAfter(vs, e, s);
    InsertedSorted(vs, e);
    VisibleIsBaseline(vs, s);
    VisibleIsBaseline(w, s);
    FirstAfterMonotone(vs, e.ts, s);
    FirstAfterMonotone(vs, s, e.ts);
    if e.ts <= s {
      SplicedAt(vs, FirstAfter(vs, e.ts), e, m);
    } else if m > 0 {
      SplicedAt(vs, FirstAfter(vs, e.ts), e, m - 1);
    }
  }

  lemma SplicedAt(vs: seq<VersionEntry>, k: nat, e: VersionEntry, i: nat)
    requires k <= |vs| && i <= |vs|
    ensures (vs[..k] + [e] + vs[k..])[i] == if i < k then vs[i] else if i == k then e else vs[i - 1]
  {
  }

  lemma FirstAfterMonotone(vs: seq<VersionEntry>, a: nat, b: nat)
    requires Sorted(vs)
    ensures a <= b ==> FirstAfter(vs, a) <= FirstAfter(vs, b)
  {
    var m := FirstAfter(vs, b);
    assert a <= b && m < |vs| ==> vs[m].ts > a;
  }

  lemma InsertedFirstAfter(vs: seq<VersionEntry>, e: VersionEntry, s: nat)
    requires Sorted(vs)
    ensures FirstAfter(Inserted(vs, e), s) == FirstAfter(vs, s) + if e.ts <= s then 1 else 0
  {
    InsertedSorted(vs, e);
    FirstAfterUnique(Inserted(vs, e), s, FirstAfter(vs, s) + if e.ts <= s then 1 else 0);
  }

  /** A suffix that keeps the baseline of `s` shows `s` what the whole chain shows it. */
  lemma {:induction false} SuffixVisible(vs: seq<VersionEntry>, k: nat, s: nat)
    requires Sorted(vs) && k <= |vs|
    requires k == 0 || (k < |vs| && vs[k].ts <= s)
    ensures VisibleAt(vs[k..], s) == VisibleAt(vs, s)
  {
    if k < |vs| {
      var n := |vs| - 1;
      assert vs[k..][|vs[k..]| - 1] == vs[n];
      if vs[n].ts > s {
        assert vs[k..][..|vs[k..]| - 1] == vs[..n][k..];
        SuffixVisible(vs[..n], k, s);
      }
    } else {
      assert vs[k..] == vs;
    }
  }

  /** Compaction drops as many versions as it may, and never more. */
  lemma CompactionStartIsGreatest(vs: seq<VersionEntry>, oldest: nat, minKeep: nat)
    requires Sorted(vs)
    ensures Droppable(vs, CompactionStart(vs, oldest, minKeep), oldest, minKeep)
    ensures forall k: nat :: Droppable(vs, k, oldest, minKeep) ==> k <= CompactionStart(vs, oldest, minKeep)
  {
    var tail, start := FirstAfter(vs, oldest), CompactionStart(vs, oldest, minKeep);
  }

  /** Compaction is invisible to every snapshot at or after its boundary. */
  lemma CompactionKeepsView(vs: seq<VersionEntry>, oldest: nat, minKeep: nat)
    requires Sorted(vs)
    ensures var kept := Compacted(vs, oldest, minKeep);
            && Sorted(kept)
            && LatestTs(kept) == LatestTs(vs)
            && |kept| >= Min(|vs|, Max(1, minKeep))
            && forall s :: s >= oldest ==> VisibleAt(kept, s) == VisibleAt(vs, s)
  {
    var k := CompactionStart(vs, oldest, minKeep);
    CompactionStartIsGreatest(vs, oldest, minKeep);
    forall s | s >= oldest ensures VisibleAt(vs[k..], s) == VisibleAt(vs, s) {
      SuffixVisible(vs, k, s);
    }
  }

  class VersionChain {
    const recordId: nat
    var versions: seq<VersionEntry>

    constructor (recordId: nat)
      ensures this.recordId == recordId && versions == []
    {
      this.recordId := recordId;
      versions := [];
    }

    /** Shared by `insert_version` (a record) and `delete` (a tombstone). */
    method Insert(e: VersionEntry)
      requires Sorted(versions)
      modifies this
      ensures Sorted(versions)
      ensures versions == Inserted(old(versions), e)
    {
      InsertedSorted(versions, e);
      if versions == [] || versions[|versions| - 1].ts < e.ts {
        InsertNewest(versions, e);
        versions := versions + [e];
      } else {
        var pos := FirstAfter(versions, e.ts);
        versions := versions[..pos] + [e] + versions[pos..];
      }
    }

    method CompactForOldestSnapshotWithFloor(oldest: nat, minKeep: nat)
      modifies this
      ensures versions == Compacted(old(versions), oldest, minKeep)
    {
      if |versions| <= 1 {
        return;
      }
      var keepTailStart := FirstAfter(versions, oldest);
      if keepTailStart == 0 {
        return;
      }
      ghost var was := versions;
      var compacted := [versions[keepTailStart - 1]] + versions[keepTailStart..];
      assert compacted == was[keepTailStart - 1..];
      var floor := Max(minKeep, 1);
      if |compacted| < floor {
        var need := floor - |compacted|;
        var take := Min(need, keepTailStart - 1);
        var prependStart := keepTailStart - 1 - take;
        versions := versions[prependStart..keepTailStart - 1] + compacted;
        assert versions == was[prependStart..];
        return;
      }
      versions := compacted;
    }
  }
}
