/** Strand scans: segment and block pruning, chunking for the thread pool, and what a guided scan finds. */
module Scan {
  import opened Wrappers
  import opened Strands
  import opened Segments

  datatype Range = Range(start: nat, end: nat)

  /** The stretch of the pool a range names. */
  function Slice(r: Range, strands: seq<Strand>): seq<Strand> {
    var lo, hi := Min(r.start, |strands|), Min(r.end, |strands|);
    if lo <= hi then strands[lo..hi] else []
  }

  function Flat(ranges: seq<Range>, strands: seq<Strand>): seq<Strand> {
    if ranges == [] then [] else Flat(ranges[..|ranges| - 1], strands) + Slice(ranges[|ranges| - 1], strands)
  }

  function Filter(keep: Strand -> bool, strands: seq<Strand>): seq<Strand> {
    if strands == [] then []
    else
      var before, s := Filter(keep, strands[..|strands| - 1]), strands[|strands| - 1];
      if keep(s) then before + [s] else before
  }

  lemma {:induction false} FilterAppend(keep: Strand -> bool, a: seq<Strand>, b: seq<Strand>)
    ensures Filter(keep, a + b) == Filter(keep, a) + Filter(keep, b)
    decreases |b|
  {
    if b == [] {
      assert a + b == a;
    } else {
      var front, s := b[..|b| - 1], b[|b| - 1];
      assert (a + b)[..|a + b| - 1] == a + front;
      FilterAppend(keep, a, front);
      if keep(s) {
        Regroup(Filter(keep, a), Filter(keep, front), [s]);
      }
    }
  }

  ghost predicate Rising(at: seq<nat>) {
    forall i, j :: 0 <= i < j < |at| ==> at[i] < at[j]
  }

  /** `out` is the elements at these places, which are those that pass the test, in their order. */
  ghost predicate TakenAt(out: seq<Strand>, at: seq<nat>, strands: seq<Strand>, keep: Strand -> bool) {
    && |at| == |out| && Rising(at)
    && (forall i :: 0 <= i < |at| ==> at[i] < |strands| && out[i] == strands[at[i]])
    && (forall k :: 0 <= k < |strands| ==> (keep(strands[k]) <==> k in at))
  }

  /** Filtering keeps the elements that pass the test, as often as they come and in their order. */
  lemma {:induction false} FilterKeeps(keep: Strand -> bool, strands: seq<Strand>) returns (at: seq<nat>)
    ensures TakenAt(Filter(keep, strands), at, strands, keep)
  {
    if strands == [] {
      at := [];
    } else {
      var n := |strands| - 1;
      var before := FilterKeeps(keep, strands[..n]);
      if keep(strands[n]) {
        OneMoreTaken(Filter(keep, strands[..n]), before, strands[..n], strands[n], keep);
        at := before + [n];
      } else {
        OneMoreLeft(Filter(keep, strands[..n]), before, strands[..n], strands[n], keep);
        at := before;
      }
      assert strands == strands[..n] + [strands[n]];
    }
  }

  lemma OneMoreTaken(out: seq<Strand>, at: seq<nat>, front: seq<Strand>, s: Strand, keep: Strand -> bool)
    requires TakenAt(out, at, front, keep) && keep(s)
    ensures TakenAt(out + [s], at + [|front|], front + [s], keep)
  {
    RisingSnoc(at, |front|);
    forall k | 0 <= k < |front + [s]| ensures keep((front + [s])[k]) <==> k in at + [|front|] {
      assert k in at + [|front|] <==> k in at || k == |front|;
    }
  }

  lemma RisingSnoc(at: seq<nat>, n: nat)
    requires Rising(at) && forall i :: 0 <= i < |at| ==> at[i] < n
    ensures Rising(at + [n])
  {
  }

  lemma OneMoreLeft(out: seq<Strand>, at: seq<nat>, front: seq<Strand>, s: Strand, keep: Strand -> bool)
    requires TakenAt(out, at, front, keep) && !keep(s)
    ensures TakenAt(out, at, front + [s], keep)
  {
    assert |front| !in at;
  }

  ghost predicate NoneWanted(wanted: Strand -> bool, strands: seq<Strand>) {
    forall k :: 0 <= k < |strands| ==> !wanted(strands[k])
  }

  lemma {:induction false} FilterNone(keep: Strand -> bool, strands: seq<Strand>)
    requires NoneWanted(keep, strands)
    ensures Filter(keep, strands) == []
  {
    if strands == [] {
    } else {
      FilterNone(keep, strands[..|strands| - 1]);
    }
  }

  /** Filtering by a coarser test first changes nothing. */
  lemma {:induction false} FilterTwice(coarse: Strand -> bool, fine: Strand -> bool, both: Strand -> bool,
                                       strands: seq<Strand>)
    requires forall k :: 0 <= k < |strands| ==> (both(strands[k]) <==> coarse(strands[k]) && fine(strands[k]))
    ensures Filter(fine, Filter(coarse, strands)) == Filter(both, strands)
  {
    if strands == [] {
    } else {
      var s := strands[|strands| - 1];
      var before := Filter(coarse, strands[..|strands| - 1]);
      FilterTwice(coarse, fine, both, strands[..|strands| - 1]);
      assert (before + [s])[..|before|] == before;
    }
  }

  lemma {:induction false} FlatAppend(a: seq<Range>, b: seq<Range>, strands: seq<Strand>)
    ensures Flat(a + b, strands) == Flat(a, strands) + Flat(b, strands)
    decreases |b|
  {
    if b == [] {
      assert a + b == a;
    } else {
      var front, last := b[..|b| - 1], Slice(b[|b| - 1], strands);
      assert (a + b)[..|a + b| - 1] == a + front;
      FlatAppend(a, front, strands);
      Regroup(Flat(a, strands), Flat(front, strands), last);
    }
  }

  // ----- Which ranges are scanned -----------------------------------------------------------

  predicate Flagged(skip: seq<bool>, i: nat) {
    i < |skip| && skip[i]
  }

  /** The ranges of the segments that are not skipped. */
  function Surviving(ranges: seq<Range>, skip: seq<bool>): seq<Range> {
    if ranges == [] then []
    else
      var t := |ranges| - 1;
      var before := Surviving(ranges[..t], skip);
      if Flagged(skip, t) then before else before + [ranges[t]]
  }

  /** A segment-relative block, cut to its segment and to the pool. */
  function Clipped(seg: Range, block: Range, n: nat): Range {
    var segStart, segEnd := Min(seg.start, n), Min(seg.end, n);
    Range(Min(Min(segStart + block.start, segEnd), n), Min(Min(segStart + block.end, segEnd), n))
  }

  /** A block without metadata is left out like one that is skipped. */
  function BlockCandidates(seg: Range, blocks: seq<Range>, skip: seq<bool>, n: nat): seq<Range> {
    if blocks == [] then []
    else
      var t := |blocks| - 1;
      var before, r := BlockCandidates(seg, blocks[..t], skip, n), Clipped(seg, blocks[t], n);
      if t < |skip| && !skip[t] && r.start < r.end then before + [r] else before
  }

  /** Surviving segments are matched with block metadata by their position among the survivors. */
  function Candidates(survivors: seq<Range>, blockRanges: seq<seq<Range>>, blockSkips: seq<seq<bool>>,
                      n: nat): seq<Range> {
    if survivors == [] then []
    else
      var t := |survivors| - 1;
      Candidates(survivors[..t], blockRanges, blockSkips, n) + Own(survivors[t], t, blockRanges, blockSkips, n)
  }

  /** What is scanned of the survivor at position `t`. */
  function Own(survivor: Range, t: nat, blockRanges: seq<seq<Range>>, blockSkips: seq<seq<bool>>, n: nat): seq<Range> {
    if t >= |blockSkips| || t >= |blockRanges| || blockSkips[t] == [] || blockRanges[t] == [] then [survivor]
    else BlockCandidates(survivor, blockRanges[t], blockSkips[t], n)
  }

  // ----- Chunking ---------------------------------------------------------------------------

  const PARALLEL_STRAND_THRESHOLD: nat := 32
  const PARALLEL_SCAN_CHUNK_MIN: nat := 512
  const PARALLEL_SCAN_CHUNK_MAX: nat := 8192
  const PARALLEL_TASKS_PER_THREAD_TARGET: nat := 4

  function AdaptiveParallelChunkSize(totalCandidates: nat, workerThreads: nat): (chunk: nat)
    ensures PARALLEL_SCAN_CHUNK_MIN <= chunk <= PARALLEL_SCAN_CHUNK_MAX
  {
    var targetTasks := Max(workerThreads, 1) * PARALLEL_TASKS_PER_THREAD_TARGET;
    Min(Max(Max(totalCandidates / targetTasks, 1), PARALLEL_SCAN_CHUNK_MIN), PARALLEL_SCAN_CHUNK_MAX)
  }

  /** Not empty, within the pool, and no longer than asked for. */
  predicate IsChunk(r: Range, chunk: nat, n: nat) {
    r.start < r.end <= Min(r.start + chunk, n)
  }

  lemma FlatSnoc(out: seq<Range>, r: Range, strands: seq<Strand>)
    ensures Flat(out + [r], strands) == Flat(out, strands) + Slice(r, strands)
  {
    assert (out + [r])[..|out|] == out;
  }

  lemma ChunkStep(out: seq<Range>, start: nat, s: nat, next: nat, strands: seq<Strand>)
    requires start <= s <= next <= |strands| && Flat(out, strands) == strands[start..s]
    ensures Flat(out + [Range(s, next)], strands) == strands[start..next]
  {
    FlatSnoc(out, Range(s, next), strands);
    SlicesJoin(strands, start, s, next);
  }

  lemma SlicesJoin<T>(q: seq<T>, a: nat, b: nat, c: nat)
    requires a <= b <= c <= |q|
    ensures q[a..b] + q[b..c] == q[a..c]
  {
  }

  predicate AllChunks(out: seq<Range>, chunk: nat, n: nat) {
    forall k | 0 <= k < |out| :: IsChunk(out[k], chunk, n)
  }

  lemma AllChunksSnoc(out: seq<Range>, r: Range, chunk: nat, n: nat)
    requires AllChunks(out, chunk, n) && IsChunk(r, chunk, n)
    ensures AllChunks(out + [r], chunk, n)
  {
  }

  /** The inner loop, on one range. */
  method SplitRange(start: nat, end: nat, chunk: nat, strands: seq<Strand>) returns (out: seq<Range>)
    requires start <= end <= |strands| && chunk >= 1
    ensures Flat(out, strands) == strands[start..end]
    ensures AllChunks(out, chunk, |strands|)
  {
    out := [];
    var s := start;
    while s < end
      invariant start <= s <= end
      invariant Flat(out, strands) == strands[start..s]
      invariant AllChunks(out, chunk, |strands|)
    {
      var next := Min(s + chunk, end);
      ChunkStep(out, start, s, next, strands);
      AllChunksSnoc(out, Range(s, next), chunk, |strands|);
      out, s := out + [Range(s, next)], next;
    }
  }

  /** The strands of the first `n` ranges. */
  function FlatUpTo(ranges: seq<Range>, n: nat, strands: seq<Strand>): seq<Strand>
    requires n <= |ranges|
  {
    if n == 0 then [] else FlatUpTo(ranges, n - 1, strands) + Slice(ranges[n - 1], strands)
  }

  lemma {:induction false} FlatUpToIs(ranges: seq<Range>, n: nat, strands: seq<Strand>)
    requires n <= |ranges|
    ensures FlatUpTo(ranges, n, strands) == Flat(ranges[..n], strands)
    decreases n
  {
    if n == 0 {
    } else {
      FlatUpToIs(ranges, n - 1, strands);
      FlatStep(ranges, strands, n);
    }
  }

  lemma FlatStep(ranges: seq<Range>, strands: seq<Strand>, p: nat)
    requires 0 < p <= |ranges|
    ensures Flat(ranges[..p], strands) == Flat(ranges[..p - 1], strands) + Slice(ranges[p - 1], strands)
  {
    assert ranges[..p][..p - 1] == ranges[..p - 1];
  }

  /** The chunks of one more range. */
  method SplitOne(chunked: seq<Range>, r: Range, chunk: nat, strands: seq<Strand>) returns (out: seq<Range>)
    requires AllChunks(chunked, chunk, |strands|) && chunk >= 1
    ensures Flat(out, strands) == Flat(chunked, strands) + Slice(r, strands) && AllChunks(out, chunk, |strands|)
  {
    var s, e := Min(r.start, |strands|), Min(r.end, |strands|);
    var chunks := [];
    if s < e {
      chunks := SplitRange(s, e, chunk, strands);
    }
    FlatAppend(chunked, chunks, strands);
    return chunked + chunks;
  }

  /** Chunks name the same strands as the ranges they come from, in the same order. */
  method SplitRangesForParallel(ranges: seq<Range>, chunkSize: nat, strands: seq<Strand>) returns (out: seq<Range>)
    ensures Flat(out, strands) == Flat(ranges, strands)
    ensures AllChunks(out, Max(chunkSize, 1), |strands|)
  {
    out := [];
    for i := 0 to |ranges|
      invariant Flat(out, strands) == FlatUpTo(ranges, i, strands)
      invariant AllChunks(out, Max(chunkSize, 1), |strands|)
    {
      out := SplitOne(out, ranges[i], Max(chunkSize, 1), strands);
    }
    FlatUpToIs(ranges, |ranges|, strands);
    assert ranges[..|ranges|] == ranges;
  }

  // ----- Scanning ---------------------------------------------------------------------------

  predicate InScope(s: Strand, collectionId: Option<nat>) {
    collectionId.None? || s.collectionId == collectionId.value
  }

  function Hit(collectionId: Option<nat>, clauses: seq<Clause>, env: Env): Strand -> bool {
    s => InScope(s, collectionId) && GuideFastMatch(clauses, s.introns, env)
  }

  /** The rows of a scan over these ranges. */
  function Hits(ranges: seq<Range>, strands: seq<Strand>, hit: Strand -> bool): seq<Strand> {
    Filter(hit, Flat(ranges, strands))
  }

  /** The inner loop, on the rows of one range. */
  method ScanRows(rows: seq<Strand>, collectionId: Option<nat>, clauses: seq<Clause>, env: Env)
    returns (out: seq<Strand>)
    ensures out == Filter(Hit(collectionId, clauses, env), rows)
  {
    out := [];
    for j := 0 to |rows|
      invariant out == Filter(Hit(collectionId, clauses, env), rows[..j])
    {
      var s := rows[j];
      assert rows[..j + 1][..j] == rows[..j];
      if !InScope(s, collectionId) {
        continue;
      }
      if GuideFastMatch(clauses, s.introns, env) {
        out := out + [s];
      }
    }
    assert rows[..|rows|] == rows;
  }

  method ScanStrandsSequential(ranges: seq<Range>, strands: seq<Strand>, collectionId: Option<nat>,
                               clauses: seq<Clause>, env: Env)
    returns (out: seq<Strand>)
    requires forall k :: 0 <= k < |ranges| ==> Min(ranges[k].start, |strands|) <= Min(ranges[k].end, |strands|)
    ensures out == Hits(ranges, strands, Hit(collectionId, clauses, env))
  {
    out := [];
    for i := 0 to |ranges|
      invariant out == Hits(ranges[..i], strands, Hit(collectionId, clauses, env))
    {
      assert ranges[..i + 1][..i] == ranges[..i];
      var rows := strands[Min(ranges[i].start, |strands|)..Min(ranges[i].end, |strands|)];
      FilterAppend(Hit(collectionId, clauses, env), Flat(ranges[..i], strands), rows);
      var found := ScanRows(rows, collectionId, clauses, env);
      out := out + found;
    }
    assert ranges[..|ranges|] == ranges;
  }

  /** The chunks' own results, joined in the order of the chunks. */
  function Joined(chunks: seq<Range>, strands: seq<Strand>, hit: Strand -> bool): seq<Strand> {
    if chunks == [] then []
    else Joined(chunks[..|chunks| - 1], strands, hit) + Filter(hit, Slice(chunks[|chunks| - 1], strands))
  }

  lemma {:induction false} JoinedIsHits(chunks: seq<Range>, strands: seq<Strand>, hit: Strand -> bool)
    ensures Joined(chunks, strands, hit) == Hits(chunks, strands, hit)
  {
    if chunks == [] {
    } else {
      JoinedIsHits(chunks[..|chunks| - 1], strands, hit);
      FilterAppend(hit, Flat(chunks[..|chunks| - 1], strands), Slice(chunks[|chunks| - 1], strands));
    }
  }

  /** The parallel scan finds what the sequential one does, in the same order, on any number of threads. */
  method ScanStrandsParallel(ranges: seq<Range>, strands: seq<Strand>, collectionId: Option<nat>, clauses: seq<Clause>,
                             totalCandidates: nat, workerThreads: nat, env: Env)
    returns (out: seq<Strand>)
    ensures out == Hits(ranges, strands, Hit(collectionId, clauses, env))
  {
    var chunks := SplitRangesForParallel(ranges, AdaptiveParallelChunkSize(totalCandidates, workerThreads), strands);
    JoinedIsHits(chunks, strands, Hit(collectionId, clauses, env));
    return Joined(chunks, strands, Hit(collectionId, clauses, env));
  }

  function TotalCandidates(ranges: seq<Range>): nat {
    if ranges == [] then 0 else Max(ranges[0].end - ranges[0].start, 0) + TotalCandidates(ranges[1..])
  }

  /** The same rows by either implementation. */
  method ScanStrands(ranges: seq<Range>, strands: seq<Strand>, collectionId: Option<nat>, clauses: seq<Clause>,
                     workerThreads: nat, env: Env)
    returns (out: seq<Strand>)
    requires Forward(ranges)
    ensures out == Hits(ranges, strands, Hit(collectionId, clauses, env))
  {
    if |strands| >= PARALLEL_STRAND_THRESHOLD {
      out := ScanStrandsParallel(ranges, strands, collectionId, clauses, TotalCandidates(ranges), workerThreads, env);
    } else {
      out := ScanStrandsSequential(ranges, strands, collectionId, clauses, env);
    }
  }

  /** No range ends before it starts. */
  predicate Forward(ranges: seq<Range>) {
    forall k | 0 <= k < |ranges| :: ranges[k].start <= ranges[k].end
  }

  lemma {:induction false} SurvivingForward(ranges: seq<Range>, skip: seq<bool>)
    requires Forward(ranges)
    ensures Forward(Surviving(ranges, skip))
  {
    if ranges == [] {
    } else {
      SurvivingForward(ranges[..|ranges| - 1], skip);
    }
  }

  lemma {:induction false} CandidatesForward(survivors: seq<Range>, blockRanges: seq<seq<Range>>,
                                             blockSkips: seq<seq<bool>>, n: nat)
    requires Forward(survivors)
    ensures Forward(Candidates(survivors, blockRanges, blockSkips, n))
  {
    if survivors == [] {
    } else {
      var t := |survivors| - 1;
      CandidatesForward(survivors[..t], blockRanges, blockSkips, n);
      if t < |blockRanges| && t < |blockSkips| {
        BlocksForward(survivors[t], blockRanges[t], blockSkips[t], n);
      }
    }
  }

  lemma {:induction false} BlocksForward(seg: Range, blocks: seq<Range>, skip: seq<bool>, n: nat)
    ensures Forward(BlockCandidates(seg, blocks, skip, n))
  {
    if blocks == [] {
    } else {
      BlocksForward(seg, blocks[..|blocks| - 1], skip, n);
    }
  }

  // ----- Skip decisions ----------------------------------------------------------------------

  /** These are the skip decisions of this metadata. */
  ghost predicate FlagsOf(metas: seq<SegmentMeta>, skip: seq<bool>, clauses: seq<Clause>, env: Env)
    reads set m: SegmentMeta, o: object | m in metas && o in m.repr :: o
  {
    |skip| == |metas| && forall i :: 0 <= i < |metas| ==> FlagOf(metas[i], skip[i], clauses, env)
  }

  ghost predicate FlagOf(meta: SegmentMeta, skip: bool, clauses: seq<Clause>, env: Env)
    reads meta.repr
  {
    meta.Askable() && skip == meta.ShouldSkip(clauses, true, env)
  }

  ghost predicate AllAskable(metas: seq<SegmentMeta>)
    reads set m: SegmentMeta, o: object | m in metas && o in m.repr :: o
  {
    forall i :: 0 <= i < |metas| ==> metas[i].Askable()
  }

  datatype ScanConfig = ScanConfig(collectionId: Option<nat>, segmentRanges: Option<seq<Range>>,
                                   segmentMetas: Option<seq<SegmentMeta>>,
                                   blockRanges: Option<seq<seq<Range>>>, blockMetas: Option<seq<seq<SegmentMeta>>>)

  method Decide(metas: seq<SegmentMeta>, clauses: seq<Clause>, env: Env) returns (skip: seq<bool>)
    requires AllAskable(metas)
    ensures FlagsOf(metas, skip, clauses, env)
  {
    skip := [];
    for i := 0 to |metas|
      invariant |skip| == i && forall k :: 0 <= k < i ==> FlagOf(metas[k], skip[k], clauses, env)
    {
      skip := skip + [metas[i].ShouldSkip(clauses, true, env)];
    }
  }

  method SegmentRangesForScan(config: ScanConfig, clauses: seq<Clause>, n: nat, env: Env)
    returns (out: seq<Range>, skip: seq<bool>)
    requires config.segmentMetas.Some? ==> AllAskable(config.segmentMetas.value)
    ensures if config.segmentMetas.Some? then FlagsOf(config.segmentMetas.value, skip, clauses, env) else skip == []
    ensures out == if config.segmentRanges.None? then [Range(0, n)] else Surviving(config.segmentRanges.value, skip)
  {
    skip := [];
    if config.segmentMetas.Some? {
      skip := Decide(config.segmentMetas.value, clauses, env);
    }
    if config.segmentRanges.None? {
      return [Range(0, n)], skip;
    }
    var ranges := config.segmentRanges.value;
    out := [];
    for idx := 0 to |ranges|
      invariant out == Surviving(ranges[..idx], skip)
    {
      assert ranges[..idx + 1][..idx] == ranges[..idx];
      if !Flagged(skip, idx) {
        out := out + [ranges[idx]];
      }
    }
    assert ranges[..|ranges|] == ranges;
  }

  /** The decisions of the block metadata, segment by segment. */
  ghost predicate BlockFlagsOf(blockMetas: seq<seq<SegmentMeta>>, blockSkips: seq<seq<bool>>, clauses: seq<Clause>,
                               env: Env)
    reads set ms: seq<SegmentMeta>, m: SegmentMeta, o: object | ms in blockMetas && m in ms && o in m.repr :: o
  {
    |blockSkips| == |blockMetas| && forall i :: 0 <= i < |blockMetas| ==>
      FlagsOf(blockMetas[i], blockSkips[i], clauses, env)
  }

  /** The ranges left to scan, and the decisions that led to them. */
  method CandidateRangesForScan(config: ScanConfig, clauses: seq<Clause>, n: nat, env: Env)
    returns (out: seq<Range>, skip: seq<bool>, blockSkips: seq<seq<bool>>)
    requires config.segmentMetas.Some? ==> AllAskable(config.segmentMetas.value)
    requires config.blockMetas.Some? ==> forall i :: 0 <= i < |config.blockMetas.value| ==>
               AllAskable(config.blockMetas.value[i])
    ensures if config.segmentMetas.Some? then FlagsOf(config.segmentMetas.value, skip, clauses, env) else skip == []
    ensures config.blockMetas.Some? && config.blockRanges.Some? ==>
              BlockFlagsOf(config.blockMetas.value, blockSkips, clauses, env)
    ensures var survivors := if config.segmentRanges.None? then [Range(0, n)]
                else Surviving(config.segmentRanges.value, skip);
            out == if config.blockMetas.None? || config.blockRanges.None? then survivors
                   else Candidates(survivors, config.blockRanges.value, blockSkips, n)
  {
    var survivors;
    survivors, skip := SegmentRangesForScan(config, clauses, n, env);
    blockSkips := [];
    if config.blockMetas.None? || config.blockRanges.None? {
      return survivors, skip, blockSkips;
    }
    var metas, ranges := config.blockMetas.value, config.blockRanges.value;
    for i := 0 to |metas|
      invariant |blockSkips| == i && forall k :: 0 <= k < i ==> FlagsOf(metas[k], blockSkips[k], clauses, env)
    {
      var flags := Decide(metas[i], clauses, env);
      blockSkips := blockSkips + [flags];
    }
    out := CutToBlocks(survivors, ranges, blockSkips, n);
  }

  /** The outer loop: each survivor with the blocks at its own position. */
  method CutToBlocks(survivors: seq<Range>, blockRanges: seq<seq<Range>>, blockSkips: seq<seq<bool>>, n: nat)
    returns (out: seq<Range>)
    ensures out == Candidates(survivors, blockRanges, blockSkips, n)
  {
    out := [];
    for t := 0 to |survivors|
      invariant out == Candidates(survivors[..t], blockRanges, blockSkips, n)
    {
      assert survivors[..t + 1][..t] == survivors[..t];
      if t >= |blockSkips| || t >= |blockRanges| || blockSkips[t] == [] || blockRanges[t] == [] {
        out := out + [survivors[t]];
      } else {
        var blocks := KeepBlocks(survivors[t], blockRanges[t], blockSkips[t], n);
        out := out + blocks;
      }
    }
    assert survivors[..|survivors|] == survivors;
  }

  /** The inner loop: the blocks of one segment. */
  method KeepBlocks(seg: Range, blocks: seq<Range>, skip: seq<bool>, n: nat) returns (out: seq<Range>)
    ensures out == BlockCandidates(seg, blocks, skip, n)
  {
    out := [];
    for b := 0 to |blocks|
      invariant out == BlockCandidates(seg, blocks[..b], skip, n)
    {
      assert blocks[..b + 1][..b] == blocks[..b];
      if b >= |skip| || skip[b] {
        continue;
      }
      var segStart, segEnd := Min(seg.start, n), Min(seg.end, n);
      var start := Min(Min(segStart + blocks[b].start, segEnd), n);
      var end := Min(Min(segStart + blocks[b].end, segEnd), n);
      if start < end {
        out := out + [Range(start, end)];
      }
    }
    assert blocks[..|blocks|] == blocks;
  }
}
