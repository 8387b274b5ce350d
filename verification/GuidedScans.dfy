/** What a guided scan finds: pruning by metadata, prefiltering and verifying, and exactly when it is complete. */
module GuidedScans {
  import opened Wrappers
  import opened Bytes
  import opened Encoding
  import opened Strands
  import opened Dictionaries
  import opened Segments
  import opened Scan

  // ----- Sound flags lose nothing, while the block metadata lines up -------------------------

  function ClippedAll(seg: Range, blocks: seq<Range>, n: nat): seq<Range> {
    if blocks == [] then [] else ClippedAll(seg, blocks[..|blocks| - 1], n) + [Clipped(seg, blocks[|blocks| - 1], n)]
  }

  /** The blocks cut their segment up, each has a flag, and no flagged one holds a wanted strand. */
  ghost predicate BlocksSound(seg: Range, blocks: seq<Range>, skip: seq<bool>, strands: seq<Strand>,
                              wanted: Strand -> bool) {
    && |blocks| <= |skip|
    && Flat(ClippedAll(seg, blocks, |strands|), strands) == Slice(seg, strands)
    && forall j :: 0 <= j < |blocks| && skip[j] ==>
         NoneWanted(wanted, Slice(Clipped(seg, blocks[j], |strands|), strands))
  }

  /** Segment and block ranges with the skip flags of their blocks. */
  datatype Layout = Layout(strands: seq<Strand>, ranges: seq<Range>, blockRanges: seq<seq<Range>>,
                           blockSkips: seq<seq<bool>>)

  ghost predicate BlockFlagsSound(l: Layout, i: nat, wanted: Strand -> bool)
    requires i < |l.ranges|
  {
    i < |l.blockRanges| && i < |l.blockSkips| && l.blockRanges[i] != [] && l.blockSkips[i] != [] ==>
      BlocksSound(l.ranges[i], l.blockRanges[i], l.blockSkips[i], l.strands, wanted)
  }

  ghost predicate FlagsSound(l: Layout, skip: seq<bool>, wanted: Strand -> bool) {
    && (forall i :: 0 <= i < |l.ranges| && Flagged(skip, i) ==> NoneWanted(wanted, Slice(l.ranges[i], l.strands)))
    && (forall i :: 0 <= i < |l.ranges| ==> BlockFlagsSound(l, i, wanted))
  }

  ghost function Scanned(l: Layout, skip: seq<bool>): seq<Range> {
    Candidates(Surviving(l.ranges, skip), l.blockRanges, l.blockSkips, |l.strands|)
  }

  /** The wanted strands among those scanned. */
  ghost function Found(l: Layout, skip: seq<bool>, wanted: Strand -> bool): seq<Strand> {
    Filter(wanted, Flat(Scanned(l, skip), l.strands))
  }

  /** No segment survives after one that is skipped. */
  ghost predicate Aligned(skip: seq<bool>, segments: nat) {
    forall i, j :: 0 <= i < j < segments && Flagged(skip, i) ==> Flagged(skip, j)
  }

  lemma FilterSnoc(wanted: Strand -> bool, ranges: seq<Range>, r: Range, strands: seq<Strand>)
    ensures Filter(wanted, Flat(ranges + [r], strands))
         == Filter(wanted, Flat(ranges, strands)) + Filter(wanted, Slice(r, strands))
  {
    FlatSnoc(ranges, r, strands);
    FilterAppend(wanted, Flat(ranges, strands), Slice(r, strands));
  }

  lemma {:induction false} BlocksKeep(seg: Range, blocks: seq<Range>, skip: seq<bool>, strands: seq<Strand>,
                                      wanted: Strand -> bool)
    requires |blocks| <= |skip|
    requires forall j :: 0 <= j < |blocks| && skip[j] ==>
               NoneWanted(wanted, Slice(Clipped(seg, blocks[j], |strands|), strands))
    ensures Filter(wanted, Flat(BlockCandidates(seg, blocks, skip, |strands|), strands))
         == Filter(wanted, Flat(ClippedAll(seg, blocks, |strands|), strands))
  {
    if blocks == [] {
    } else {
      var front, t, n := blocks[..|blocks| - 1], |blocks| - 1, |strands|;
      var r := Clipped(seg, blocks[t], n);
      BlocksKeep(seg, front, skip, strands, wanted);
      SameFoundStep(ClippedAll(seg, front, n), BlockCandidates(seg, front, skip, n), r, !skip[t] && r.start < r.end,
                    strands, wanted);
    }
  }

  /** A range may be left out when it holds nothing wanted. */
  lemma SameFoundStep(all: seq<Range>, kept: seq<Range>, r: Range, keep: bool, strands: seq<Strand>,
                      wanted: Strand -> bool)
    requires Filter(wanted, Flat(kept, strands)) == Filter(wanted, Flat(all, strands))
    requires keep || NoneWanted(wanted, Slice(r, strands))
    ensures Filter(wanted, Flat(if keep then kept + [r] else kept, strands)) == Filter(wanted, Flat(all + [r], strands))
  {
    FilterSnoc(wanted, all, r, strands);
    if keep {
      FilterSnoc(wanted, kept, r, strands);
    } else {
      FilterNone(wanted, Slice(r, strands));
    }
  }

  lemma FlatOne(r: Range, strands: seq<Strand>)
    ensures Flat([r], strands) == Slice(r, strands)
  {
    assert [r][..0] == [];
  }

  /** One segment, under its own block flags. */
  lemma SegmentKept(l: Layout, i: nat, before: seq<Range>, wanted: Strand -> bool)
    requires i < |l.ranges| && BlockFlagsSound(l, i, wanted)
    ensures Filter(wanted, Flat(before + Own(l.ranges[i], i, l.blockRanges, l.blockSkips, |l.strands|), l.strands))
         == Filter(wanted, Flat(before, l.strands)) + Filter(wanted, Slice(l.ranges[i], l.strands))
  {
    var own := Own(l.ranges[i], i, l.blockRanges, l.blockSkips, |l.strands|);
    FlatAppend(before, own, l.strands);
    FilterAppend(wanted, Flat(before, l.strands), Flat(own, l.strands));
    if own == [l.ranges[i]] {
      FlatOne(l.ranges[i], l.strands);
    } else {
      BlocksKeep(l.ranges[i], l.blockRanges[i], l.blockSkips[i], l.strands, wanted);
    }
  }

  lemma {:induction false} AllSurvive(ranges: seq<Range>, skip: seq<bool>)
    requires forall i :: 0 <= i < |ranges| ==> !Flagged(skip, i)
    ensures Surviving(ranges, skip) == ranges
  {
    if ranges == [] {
    } else {
      AllSurvive(ranges[..|ranges| - 1], skip);
      assert ranges == ranges[..|ranges| - 1] + [ranges[|ranges| - 1]];
    }
  }

  /** The wanted strands found in the first `m` segments, and all there are. */
  ghost function FoundIn(l: Layout, skip: seq<bool>, wanted: Strand -> bool, m: nat): seq<Strand>
    requires m <= |l.ranges|
  {
    Filter(wanted, Flat(Candidates(Surviving(l.ranges[..m], skip), l.blockRanges, l.blockSkips, |l.strands|),
                        l.strands))
  }

  ghost function AllIn(l: Layout, wanted: Strand -> bool, m: nat): seq<Strand>
    requires m <= |l.ranges|
  {
    Filter(wanted, Flat(l.ranges[..m], l.strands))
  }

  lemma AllInStep(l: Layout, wanted: Strand -> bool, t: nat)
    requires t < |l.ranges|
    ensures AllIn(l, wanted, t + 1) == AllIn(l, wanted, t) + Filter(wanted, Slice(l.ranges[t], l.strands))
  {
    assert l.ranges[..t + 1] == l.ranges[..t] + [l.ranges[t]];
    FilterSnoc(wanted, l.ranges[..t], l.ranges[t], l.strands);
  }

  lemma SkippedStep(l: Layout, skip: seq<bool>, wanted: Strand -> bool, t: nat)
    requires t < |l.ranges| && Flagged(skip, t)
    ensures FoundIn(l, skip, wanted, t + 1) == FoundIn(l, skip, wanted, t)
  {
    SurvivingSkips(l.ranges, skip, t);
  }

  lemma SurvivingSkips(ranges: seq<Range>, skip: seq<bool>, t: nat)
    requires t < |ranges| && Flagged(skip, t)
    ensures Surviving(ranges[..t + 1], skip) == Surviving(ranges[..t], skip)
  {
    assert ranges[..t + 1][..t] == ranges[..t];
  }

  lemma SurvivorStep(l: Layout, skip: seq<bool>, wanted: Strand -> bool, t: nat)
    requires t < |l.ranges| && FlagsSound(l, skip, wanted) && Aligned(skip, |l.ranges|) && !Flagged(skip, t)
    ensures FoundIn(l, skip, wanted, t + 1)
         == FoundIn(l, skip, wanted, t) + Filter(wanted, Slice(l.ranges[t], l.strands))
  {
    NoneBefore(skip, |l.ranges|, t);
    AllSurvive(l.ranges[..t], skip);
    AllSurvive(l.ranges[..t + 1], skip);
    OneMoreSurvivor(l, Surviving(l.ranges[..t], skip), Surviving(l.ranges[..t + 1], skip), t, wanted);
  }

  lemma OneMoreSurvivor(l: Layout, before: seq<Range>, after: seq<Range>, t: nat, wanted: Strand -> bool)
    requires t < |l.ranges| && BlockFlagsSound(l, t, wanted) && before == l.ranges[..t] && after == l.ranges[..t + 1]
    ensures Filter(wanted, Flat(Candidates(after, l.blockRanges, l.blockSkips, |l.strands|), l.strands))
         == Filter(wanted, Flat(Candidates(before, l.blockRanges, l.blockSkips, |l.strands|), l.strands))
          + Filter(wanted, Slice(l.ranges[t], l.strands))
  {
    assert after[..t] == before;
    SegmentKept(l, t, Candidates(before, l.blockRanges, l.blockSkips, |l.strands|), wanted);
  }

  lemma NoneBefore(skip: seq<bool>, n: nat, t: nat)
    requires t < n && Aligned(skip, n) && !Flagged(skip, t)
    ensures forall i :: 0 <= i < t + 1 ==> !Flagged(skip, i)
  {
    forall i | 0 <= i < t ensures !Flagged(skip, i) {
    }
  }

  lemma NothingFound(none: seq<Range>, blockRanges: seq<seq<Range>>, blockSkips: seq<seq<bool>>, strands: seq<Strand>,
                     wanted: Strand -> bool)
    requires none == []
    ensures Filter(wanted, Flat(Candidates(none, blockRanges, blockSkips, |strands|), strands)) == []
  {
    assert Candidates(none, blockRanges, blockSkips, |strands|) == [];
    assert Flat([], strands) == [];
  }

  lemma NothingYet(l: Layout, skip: seq<bool>, wanted: Strand -> bool)
    ensures FoundIn(l, skip, wanted, 0) == AllIn(l, wanted, 0)
  {
    assert l.ranges[..0] == [] && Surviving(l.ranges[..0], skip) == [];
    NothingFound(Surviving(l.ranges[..0], skip), l.blockRanges, l.blockSkips, l.strands, wanted);
    assert Flat(l.ranges[..0], l.strands) == [];
  }

  lemma AlignedStep(l: Layout, skip: seq<bool>, wanted: Strand -> bool, t: nat)
    requires t < |l.ranges| && Aligned(skip, |l.ranges|) && FlagsSound(l, skip, wanted)
    requires FoundIn(l, skip, wanted, t) == AllIn(l, wanted, t)
    ensures FoundIn(l, skip, wanted, t + 1) == AllIn(l, wanted, t + 1)
  {
    AllInStep(l, wanted, t);
    if Flagged(skip, t) {
      SkippedStep(l, skip, wanted, t);
      FilterNone(wanted, Slice(l.ranges[t], l.strands));
    } else {
      SurvivorStep(l, skip, wanted, t);
    }
  }

  predicate StepKeeps(p: nat -> bool, t: nat) {
    p(t) ==> p(t + 1)
  }

  /** Induction up to `n`. */
  lemma {:induction false} ByStep(p: nat -> bool, n: nat)
    requires p(0) && forall t: nat :: t < n ==> StepKeeps(p, t)
    ensures p(n)
  {
    if n == 0 {
    } else {
      ByStep(p, n - 1);
      assert StepKeeps(p, n - 1);
    }
  }

  /** The scan of the first `m` segments keeps what is wanted of them. */
  ghost predicate Keeps(l: Layout, skip: seq<bool>, wanted: Strand -> bool, m: nat) {
    m <= |l.ranges| ==> FoundIn(l, skip, wanted, m) == AllIn(l, wanted, m)
  }

  lemma AlignedKeeps(l: Layout, skip: seq<bool>, wanted: Strand -> bool)
    requires Aligned(skip, |l.ranges|) && FlagsSound(l, skip, wanted)
    ensures Found(l, skip, wanted) == Filter(wanted, Flat(l.ranges, l.strands))
  {
    var p := (m: nat) => Keeps(l, skip, wanted, m);
    NothingYet(l, skip, wanted);
    forall t: nat | t < |l.ranges| ensures StepKeeps(p, t) {
      if p(t) {
        AlignedStep(l, skip, wanted, t);
      }
    }
    ByStep(p, |l.ranges|);
    assert l.ranges[..|l.ranges|] == l.ranges;
  }

  // ----- Flags from metadata -----------------------------------------------------------------

  /** What a scan asks for, and how its metadata was built. */
  datatype Guide = Guide(tracked: seq<string>, filter: FilterSize, collectionId: Option<nat>, clauses: seq<Clause>,
                         env: Env)

  /** A strand in scope that the verifier accepts. */
  function Wanted(g: Guide): Strand -> bool {
    s => InScope(s, g.collectionId) && Verifies(s, g.clauses, g.env)
  }

  /** Such a strand is of the collection asked for, if one is, and every clause holds of it. */
  lemma WantedMeans(g: Guide, s: Strand)
    ensures Wanted(g)(s)
            <==> && (g.collectionId.Some? ==> s.collectionId == g.collectionId.value)
                 && forall k :: 0 <= k < |g.clauses| ==> Stands(s, g.clauses, g.clauses[k], g.env)
  {
    VerifiesIff(s, g.clauses, g.env);
  }

  function Verified(g: Guide): Strand -> bool {
    s => Verifies(s, g.clauses, g.env)
  }

  /** The rows a scan returns, once verified. */
  ghost function Answer(ranges: seq<Range>, strands: seq<Strand>, g: Guide): seq<Strand> {
    Filter(Verified(g), Hits(ranges, strands, Hit(g.collectionId, g.clauses, g.env)))
  }

  ghost predicate Pruned(r: Range, strands: seq<Strand>, g: Guide) {
    Skips(Slice(r, strands), g.tracked, g.filter, g.clauses, true, g.env)
  }

  /** Each segment is flagged as metadata built from its strands decides. */
  ghost predicate SegmentFlags(l: Layout, skip: seq<bool>, g: Guide) {
    |skip| == |l.ranges| && forall i :: 0 <= i < |skip| ==> (skip[i] <==> Pruned(l.ranges[i], l.strands, g))
  }

  ghost predicate BlockFlagsAt(l: Layout, i: nat, g: Guide)
    requires i < |l.ranges| && i < |l.blockRanges| && i < |l.blockSkips|
  {
    var seg, blocks, skip, n := l.ranges[i], l.blockRanges[i], l.blockSkips[i], |l.strands|;
    && |skip| == |blocks|
    && (blocks != [] ==> Flat(ClippedAll(seg, blocks, n), l.strands) == Slice(seg, l.strands))
    && forall j :: 0 <= j < |skip| ==> (skip[j] <==> Pruned(Clipped(seg, blocks[j], n), l.strands, g))
  }

  /** The blocks of each segment cut it up, and are flagged as metadata built from their strands decides. */
  ghost predicate BlockFlags(l: Layout, g: Guide) {
    && |l.blockSkips| == |l.blockRanges|
    && forall i :: 0 <= i < |l.blockSkips| && i < |l.ranges| ==> BlockFlagsAt(l, i, g)
  }

  ghost predicate AllWellHashed(strands: seq<Strand>, env: Env) {
    forall k :: 0 <= k < |strands| ==> WellHashed(strands[k], env)
  }

  /** The clauses ask for values, and those of ranges that read numbers agree with the bytes in this pool. */
  ghost predicate Guidable(strands: seq<Strand>, g: Guide) {
    && OnValues(g.clauses)
    && forall k :: 0 <= k < |g.clauses| ==> ReadsAgree(Sightings(strands, g.env), g.clauses[k], g.env)
  }

  /** A layout of a pool of well hashed strands, cut up by its segments, with the flags of its metadata. */
  ghost predicate Prepared(l: Layout, skip: seq<bool>, g: Guide) {
    && Flat(l.ranges, l.strands) == l.strands && SegmentFlags(l, skip, g) && BlockFlags(l, g)
    && AllWellHashed(l.strands, g.env) && Guidable(l.strands, g)
  }

  // ----- Metadata objects give those flags -----------------------------------------------------

  /** Segment metadata for every segment of a layout. */
  ghost predicate Described(l: Layout, metas: seq<SegmentMeta>, g: Guide)
    reads set m: SegmentMeta, o: object | m in metas && o in m.repr :: o
  {
    |metas| == |l.ranges| && forall i :: 0 <= i < |metas| ==>
      metas[i].Describes(Slice(l.ranges[i], l.strands), g.tracked, g.filter, g.env)
  }

  /** Block metadata for every block of a segment. */
  ghost predicate BlocksDescribed(l: Layout, i: nat, metas: seq<SegmentMeta>, g: Guide)
    requires i < |l.ranges| && i < |l.blockRanges|
    reads set m: SegmentMeta, o: object | m in metas && o in m.repr :: o
  {
    |metas| == |l.blockRanges[i]| && forall j :: 0 <= j < |metas| ==>
      metas[j].Describes(Slice(Clipped(l.ranges[i], l.blockRanges[i][j], |l.strands|), l.strands), g.tracked, g.filter,
                         g.env)
  }

  lemma DescribedFlags(l: Layout, metas: seq<SegmentMeta>, skip: seq<bool>, g: Guide)
    requires Described(l, metas, g) && FlagsOf(metas, skip, g.clauses, g.env)
    ensures SegmentFlags(l, skip, g)
  {
    forall i | 0 <= i < |skip| ensures skip[i] <==> Pruned(l.ranges[i], l.strands, g) {
      assert FlagOf(metas[i], skip[i], g.clauses, g.env);
      SkippedIff(metas[i], Slice(l.ranges[i], l.strands), g.tracked, g.filter, g.clauses, true, g.env);
    }
  }

  lemma DescribedBlockFlags(l: Layout, i: nat, metas: seq<SegmentMeta>, g: Guide)
    requires i < |l.ranges| && i < |l.blockRanges| && i < |l.blockSkips|
    requires BlocksDescribed(l, i, metas, g) && FlagsOf(metas, l.blockSkips[i], g.clauses, g.env)
    requires l.blockRanges[i] != [] ==>
               Flat(ClippedAll(l.ranges[i], l.blockRanges[i], |l.strands|), l.strands) == Slice(l.ranges[i], l.strands)
    ensures BlockFlagsAt(l, i, g)
  {
    var seg, blocks, skip, n := l.ranges[i], l.blockRanges[i], l.blockSkips[i], |l.strands|;
    forall j | 0 <= j < |skip| ensures skip[j] <==> Pruned(Clipped(seg, blocks[j], n), l.strands, g) {
      assert FlagOf(metas[j], skip[j], g.clauses, g.env);
      SkippedIff(metas[j], Slice(Clipped(seg, blocks[j], n), l.strands), g.tracked, g.filter, g.clauses, true, g.env);
    }
  }

  // ----- A guided scan is complete -----------------------------------------------------------

  /** Every sighting is that of an intron of a strand. */
  lemma {:induction false} SightedWhere(s: Strand, introns: seq<Intron>, x: Sighting, env: Env) returns (k: nat)
    requires x in SightingsOf(s, introns, env)
    ensures k < |introns| && x == Sighted(s, introns[k], env)
  {
    var n := |introns| - 1;
    if x == Sighted(s, introns[n], env) {
      k := n;
    } else {
      k := SightedWhere(s, introns[..n], x, env);
    }
  }

  lemma {:induction false} StrandWhere(strands: seq<Strand>, x: Sighting, env: Env) returns (i: nat, k: nat)
    requires x in Sightings(strands, env)
    ensures i < |strands| && k < |strands[i].introns| && x == Sighted(strands[i], strands[i].introns[k], env)
  {
    var n := |strands| - 1;
    if x in SightingsOf(strands[n], strands[n].introns, env) {
      i := n;
      k := SightedWhere(strands[n], strands[n].introns, x, env);
    } else {
      i, k := StrandWhere(strands[..n], x, env);
    }
  }

  lemma SliceSeen(r: Range, strands: seq<Strand>, env: Env)
    ensures SeenIn(Sightings(Slice(r, strands), env), Sightings(strands, env))
  {
    var part, ss := Slice(r, strands), Sightings(Slice(r, strands), env);
    forall p | 0 <= p < |ss| ensures ss[p] in Sightings(strands, env) {
      var i, k := StrandWhere(part, ss[p], env);
      StrandSighted(strands, Min(r.start, |strands|) + i, k, env);
    }
  }

  /** A stretch that its metadata prunes holds nothing wanted. */
  lemma PrunedHoldsNothing(r: Range, strands: seq<Strand>, g: Guide)
    requires AllWellHashed(strands, g.env) && Guidable(strands, g) && Pruned(r, strands, g)
    ensures NoneWanted(Wanted(g), Slice(r, strands))
  {
    var part := Slice(r, strands);
    SliceSeen(r, strands, g.env);
    forall k | 0 <= k < |part| ensures !Wanted(g)(part[k]) {
      if Verifies(part[k], g.clauses, g.env) {
        PruningIsSound(part, k, Sightings(strands, g.env), g.tracked, g.filter, g.clauses, true, g.env);
      }
    }
  }

  lemma PreparedIsSound(l: Layout, skip: seq<bool>, g: Guide)
    requires Prepared(l, skip, g)
    ensures FlagsSound(l, skip, Wanted(g))
  {
    forall i | 0 <= i < |l.ranges| && Flagged(skip, i) ensures NoneWanted(Wanted(g), Slice(l.ranges[i], l.strands)) {
      PrunedHoldsNothing(l.ranges[i], l.strands, g);
    }
    forall i | 0 <= i < |l.ranges| && i < |l.blockSkips| ensures BlockFlagsSound(l, i, Wanted(g)) {
      BlocksAreSound(l, i, g);
    }
  }

  lemma BlocksAreSound(l: Layout, i: nat, g: Guide)
    requires i < |l.ranges| && i < |l.blockRanges| && i < |l.blockSkips| && BlockFlagsAt(l, i, g)
    requires AllWellHashed(l.strands, g.env) && Guidable(l.strands, g)
    ensures BlockFlagsSound(l, i, Wanted(g))
  {
    var seg, blocks, skip, n := l.ranges[i], l.blockRanges[i], l.blockSkips[i], |l.strands|;
    forall j | 0 <= j < |blocks| && skip[j]
      ensures NoneWanted(Wanted(g), Slice(Clipped(seg, blocks[j], n), l.strands)) {
      PrunedHoldsNothing(Clipped(seg, blocks[j], n), l.strands, g);
    }
  }

  lemma {:induction false} FlatMembers(ranges: seq<Range>, strands: seq<Strand>, env: Env)
    requires AllWellHashed(strands, env)
    ensures AllWellHashed(Flat(ranges, strands), env)
  {
    if ranges == [] {
    } else {
      FlatMembers(ranges[..|ranges| - 1], strands, env);
    }
  }

  /** Prefilter, then verify: what is left is what verification alone would leave. */
  lemma PrefilterThenVerify(rows: seq<Strand>, g: Guide)
    requires AllWellHashed(rows, g.env) && OnValues(g.clauses)
    ensures Filter(Verified(g), Filter(Hit(g.collectionId, g.clauses, g.env), rows)) == Filter(Wanted(g), rows)
  {
    var coarse, fine, both := Hit(g.collectionId, g.clauses, g.env), Verified(g), Wanted(g);
    forall k | 0 <= k < |rows| ensures both(rows[k]) <==> coarse(rows[k]) && fine(rows[k]) {
      if Verifies(rows[k], g.clauses, g.env) {
        PrefilterIsSound(rows[k], g.clauses, g.env);
      }
    }
    FilterTwice(coarse, fine, both, rows);
  }

  lemma AnswerIsFound(ranges: seq<Range>, strands: seq<Strand>, g: Guide)
    requires AllWellHashed(strands, g.env) && OnValues(g.clauses)
    ensures Answer(ranges, strands, g) == Filter(Wanted(g), Flat(ranges, strands))
  {
    FlatMembers(ranges, strands, g.env);
    PrefilterThenVerify(Flat(ranges, strands), g);
  }

  /**
   A guided scan is complete: pruning by segment and by block, prefiltering and then verifying gives
   exactly the strands in scope that verify, in pool order, as long as no segment survives after one
   that is skipped.
   */
  lemma GuidedScanIsComplete(l: Layout, skip: seq<bool>, g: Guide)
    requires Prepared(l, skip, g) && Aligned(skip, |skip|)
    ensures Answer(Scanned(l, skip), l.strands, g) == Filter(Wanted(g), l.strands)
  {
    PreparedIsSound(l, skip, g);
    AlignedKeeps(l, skip, Wanted(g));
    AnswerIsFound(Scanned(l, skip), l.strands, g);
  }

  lemma {:induction false} SegmentsKeep(ranges: seq<Range>, skip: seq<bool>, strands: seq<Strand>,
                                        wanted: Strand -> bool)
    requires forall i :: 0 <= i < |ranges| && Flagged(skip, i) ==> NoneWanted(wanted, Slice(ranges[i], strands))
    ensures Filter(wanted, Flat(Surviving(ranges, skip), strands)) == Filter(wanted, Flat(ranges, strands))
  {
    if ranges == [] {
    } else {
      var t := |ranges| - 1;
      SegmentsKeep(ranges[..t], skip, strands, wanted);
      assert ranges == ranges[..t] + [ranges[t]];
      SameFoundStep(ranges[..t], Surviving(ranges[..t], skip), ranges[t], !Flagged(skip, t), strands, wanted);
    }
  }

  /** By segment metadata alone the scan is complete however the skipped segments lie. */
  lemma SegmentScanIsComplete(l: Layout, skip: seq<bool>, g: Guide)
    requires Prepared(l, skip, g)
    ensures Answer(Surviving(l.ranges, skip), l.strands, g) == Filter(Wanted(g), l.strands)
  {
    PreparedIsSound(l, skip, g);
    SegmentsKeep(l.ranges, skip, l.strands, Wanted(g));
    AnswerIsFound(Surviving(l.ranges, skip), l.strands, g);
  }

  // ----- The scan as it runs -------------------------------------------------------------------

  /** A segment is pruned only with all that follow it. */
  ghost predicate PrunedLast(ranges: seq<Range>, strands: seq<Strand>, g: Guide) {
    forall i, j :: 0 <= i < j < |ranges| && Pruned(ranges[i], strands, g) ==> Pruned(ranges[j], strands, g)
  }

  predicate HasBlocks(config: ScanConfig) {
    config.blockRanges.Some? && config.blockMetas.Some?
  }

  /** The layout a configuration describes, given the decisions for its blocks. */
  function LayoutOf(config: ScanConfig, strands: seq<Strand>, blockSkips: seq<seq<bool>>): Layout
    requires config.segmentRanges.Some?
  {
    if HasBlocks(config) then Layout(strands, config.segmentRanges.value, config.blockRanges.value, blockSkips)
    else Layout(strands, config.segmentRanges.value, [], [])
  }

  /** Segments that cut up the pool, with metadata of their strands; and so the blocks, if there are any. */
  ghost predicate Configured(config: ScanConfig, strands: seq<Strand>, g: Guide)
    reads if config.segmentMetas.Some? then
            set m: SegmentMeta, o: object | m in config.segmentMetas.value && o in m.repr :: o
          else {}
    reads if config.blockMetas.Some? then
            set ms: seq<SegmentMeta>, m: SegmentMeta, o: object
              | ms in config.blockMetas.value && m in ms && o in m.repr :: o
          else {}
  {
    && config.collectionId == g.collectionId && config.segmentRanges.Some? && config.segmentMetas.Some?
    && Forward(config.segmentRanges.value) && Flat(config.segmentRanges.value, strands) == strands
    && Described(LayoutOf(config, strands, []), config.segmentMetas.value, g) && AllAskable(config.segmentMetas.value)
    && (HasBlocks(config) ==> BlocksConfigured(config, strands, g))
    && (config.blockMetas.Some? ==> forall i :: 0 <= i < |config.blockMetas.value| ==>
          AllAskable(config.blockMetas.value[i]))
  }

  ghost predicate BlocksConfigured(config: ScanConfig, strands: seq<Strand>, g: Guide)
    requires config.segmentRanges.Some? && HasBlocks(config)
    reads set ms: seq<SegmentMeta>, m: SegmentMeta, o: object
            | ms in config.blockMetas.value && m in ms && o in m.repr :: o
  {
    var l, metas := LayoutOf(config, strands, []), config.blockMetas.value;
    && |metas| == |l.blockRanges|
    && forall i :: 0 <= i < |metas| && i < |l.ranges| ==>
         && BlocksDescribed(l, i, metas[i], g)
         && (l.blockRanges[i] != [] ==>
               Flat(ClippedAll(l.ranges[i], l.blockRanges[i], |strands|), strands) == Slice(l.ranges[i], strands))
  }

  lemma ConfiguredIsPrepared(config: ScanConfig, strands: seq<Strand>, skip: seq<bool>, blockSkips: seq<seq<bool>>,
                             g: Guide)
    requires Configured(config, strands, g) && AllWellHashed(strands, g.env) && Guidable(strands, g)
    requires FlagsOf(config.segmentMetas.value, skip, g.clauses, g.env)
    requires HasBlocks(config) ==> BlockFlagsOf(config.blockMetas.value, blockSkips, g.clauses, g.env)
    ensures Prepared(LayoutOf(config, strands, blockSkips), skip, g)
  {
    var l := LayoutOf(config, strands, blockSkips);
    DescribedFlags(l, config.segmentMetas.value, skip, g);
    if HasBlocks(config) {
      forall i | 0 <= i < |l.blockSkips| && i < |l.ranges| ensures BlockFlagsAt(l, i, g) {
        DescribedBlockFlags(l, i, config.blockMetas.value[i], g);
      }
    }
  }

  /** The loop that verifies what the scan found. */
  method VerifyClauses(rows: seq<Strand>, g: Guide) returns (out: seq<Strand>)
    ensures out == Filter(Verified(g), rows)
  {
    out := [];
    for i := 0 to |rows|
      invariant out == Filter(Verified(g), rows[..i])
    {
      assert rows[..i + 1][..i] == rows[..i];
      if Verifies(rows[i], g.clauses, g.env) {
        out := out + [rows[i]];
      }
    }
    assert rows[..|rows|] == rows;
  }

  /**
   Metadata decides what is scanned, the prefilter what is verified. The result is exactly the strands
   in scope that verify, in pool order: always by segment metadata alone, and with block metadata
   where a segment is pruned only with all that follow it.
   */
  method FetchGuided(config: ScanConfig, strands: seq<Strand>, g: Guide, workerThreads: nat)
    returns (out: seq<Strand>)
    requires Configured(config, strands, g) && AllWellHashed(strands, g.env) && Guidable(strands, g)
    ensures !HasBlocks(config) || PrunedLast(config.segmentRanges.value, strands, g) ==>
              out == Filter(Wanted(g), strands)
  {
    var ranges, skip, blockSkips := CandidateRangesForScan(config, g.clauses, |strands|, g.env);
    ghost var l := LayoutOf(config, strands, blockSkips);
    ConfiguredIsPrepared(config, strands, skip, blockSkips, g);
    SurvivingForward(l.ranges, skip);
    CandidatesForward(Surviving(l.ranges, skip), l.blockRanges, blockSkips, |strands|);
    var rows := ScanStrands(ranges, strands, g.collectionId, g.clauses, workerThreads, g.env);
    out := VerifyClauses(rows, g);
    if !HasBlocks(config) {
      SegmentScanIsComplete(l, skip, g);
    } else if PrunedLast(l.ranges, strands, g) {
      GuidedScanIsComplete(l, skip, g);
    }
  }

  // ----- Where a survivor is pruned by another segment's blocks --------------------------------

  /**
   Over all layouts with these segment flags and all scans whose metadata gives them, the scan is
   complete iff no segment survives after one that is skipped. (`a` and `b` are any two payloads of
   different hash.)
   */
  lemma BlockPruningIff(skip: seq<bool>, a: bytes, b: bytes, filter: FilterSize, env: Env)
    requires env.fnv(a) != env.fnv(b) && |a| <= RECOVERABLE && |b| <= RECOVERABLE
    ensures (forall l: Layout, g: Guide :: g.env == env && Prepared(l, skip, g) ==>
              Answer(Scanned(l, skip), l.strands, g) == Filter(Wanted(g), l.strands))
            <==> Aligned(skip, |skip|)
  {
    if Aligned(skip, |skip|) {
      forall l: Layout, g: Guide | g.env == env && Prepared(l, skip, g)
        ensures Answer(Scanned(l, skip), l.strands, g) == Filter(Wanted(g), l.strands)
      {
        GuidedScanIsComplete(l, skip, g);
      }
    } else {
      var i, j := FirstGap(skip);
      MisalignedLoses(skip, i, j, a, b, filter, env);
      assert AskingFor(b, filter, env).env == env;
    }
  }

  /** The first segment that is skipped, and the first survivor after it. */
  lemma FirstGap(skip: seq<bool>) returns (i: nat, j: nat)
    requires !Aligned(skip, |skip|)
    ensures i < j < |skip| && !skip[j]
    ensures (forall k :: 0 <= k < i ==> !skip[k]) && (forall k :: i <= k < j ==> skip[k])
  {
    i := 0;
    while !skip[i]
      invariant 0 <= i < |skip| && forall k :: 0 <= k < i ==> !skip[k]
      invariant exists k :: i <= k < |skip| && skip[k] && exists m :: k < m < |skip| && !skip[m]
      decreases |skip| - i
    {
      i := i + 1;
    }
    j := i;
    while skip[j]
      invariant i <= j < |skip| && forall k :: i <= k < j ==> skip[k]
      invariant exists m :: j <= m < |skip| && !skip[m]
      decreases |skip| - j
    {
      j := j + 1;
    }
  }

  /** A logged strand for each segment: one with payload `a` where the segment is to be skipped, with `b` elsewhere. */
  function Payloads(skip: seq<bool>, a: bytes, b: bytes): (values: seq<bytes>)
    ensures |values| == |skip| && forall x :: 0 <= x < |skip| ==> values[x] == if skip[x] then a else b
  {
    seq(|skip|, x requires 0 <= x < |skip| => if skip[x] then a else b)
  }

  /** A segment for each strand, and one block for each segment. */
  function OneEach(skip: seq<bool>, a: bytes, b: bytes, env: Env): Layout {
    Layout(LoggedStrands(Payloads(skip, a, b), env),
           seq(|skip|, x requires 0 <= x => Range(x, x + 1)),
           seq(|skip|, x => [Range(0, 1)]),
           seq(|skip|, x requires 0 <= x < |skip| => [skip[x]]))
  }

  /** An exact clause on the payload `b`. */
  function AskingFor(b: bytes, filter: FilterSize, env: Env): Guide {
    Guide([PAYLOAD], filter, None, [ExactMatch(PAYLOAD, b, Encoded(b).codons)], env)
  }

  /** The segment of one strand is skipped iff its payload hashes to something else. */
  lemma OneStrandPruned(sequence: nat, value: bytes, b: bytes, filter: FilterSize, env: Env)
    requires |value| <= RECOVERABLE && (env.fnv(value) == env.fnv(b) ==> value == b)
    ensures var g := AskingFor(b, filter, env);
            Skips([StrandFromWalPayload(1, sequence, value, env)], g.tracked, filter, g.clauses, true, env)
            <==> value != b
  {
    var g, s := AskingFor(b, filter, env), StrandFromWalPayload(1, sequence, value, env);
    OneSighted(sequence, value, env);
    PayloadIsTracked(env);
    ExactSkipsIff(Sightings([s], env), value, b, filter, env);
    assert g.clauses[0] == ExactMatch(PAYLOAD, b, Encoded(b).codons);
  }

  lemma OneSighted(sequence: nat, value: bytes, env: Env)
    requires |value| <= RECOVERABLE
    ensures Sightings([StrandFromWalPayload(1, sequence, value, env)], env)
         == [Sighting(FieldHash(PAYLOAD, env), env.fnv(value), Some(value))]
  {
    var s := StrandFromWalPayload(1, sequence, value, env);
    OneSighting(sequence, value, env);
    assert [s][..0] == [] && Sightings([], env) == [];
  }

  lemma ExactSkipsIff(ss: seq<Sighting>, value: bytes, b: bytes, filter: FilterSize, env: Env)
    requires ss == [Sighting(FieldHash(PAYLOAD, env), env.fnv(value), Some(value))]
    requires env.fnv(value) == env.fnv(b) ==> value == b
    ensures SkipsClause(ss, [PAYLOAD], filter, ExactMatch(PAYLOAD, b, Encoded(b).codons), true, env) <==> value != b
  {
    var f := FieldHash(PAYLOAD, env);
    PayloadIsTracked(env);
    assert ss[..0] == [] && ViewOf([], f, env) == UNSEEN && FreqsOf([], f) == map[];
    var freqs := FreqsOf(ss, f);
    assert freqs == map[env.fnv(value) := 1];
    CompleteIff(freqs);
    CompleteListsAll(freqs, env.fnv(b));
    MembersAreSeen(ss, f, value, env);
    MembersAreCovered(ViewOf(ss, f, env).members, value, filter, env);
  }

  /** A segment of one strand, and one block, each with its flag. */
  ghost predicate Units(l: Layout, skip: seq<bool>) {
    && |l.strands| == |l.ranges| == |l.blockRanges| == |l.blockSkips| == |skip|
    && forall x :: 0 <= x < |skip| ==>
         l.ranges[x] == Range(x, x + 1) && l.blockRanges[x] == [Range(0, 1)] && l.blockSkips[x] == [skip[x]]
  }

  /** This layout is one that the scan can receive, with exactly these flags. */
  lemma OneEachPrepared(skip: seq<bool>, a: bytes, b: bytes, filter: FilterSize, env: Env)
    requires env.fnv(a) != env.fnv(b) && |a| <= RECOVERABLE && |b| <= RECOVERABLE
    ensures Units(OneEach(skip, a, b, env), skip)
    ensures Prepared(OneEach(skip, a, b, env), skip, AskingFor(b, filter, env))
  {
    var l, g := OneEach(skip, a, b, env), AskingFor(b, filter, env);
    OneEachUnits(skip, a, b, env);
    forall x | 0 <= x < |skip| ensures skip[x] <==> Pruned(l.ranges[x], l.strands, g) {
      OneEachPruned(skip, x, a, b, filter, env);
    }
    OneEachHashed(skip, a, b, env);
    UnitsPrepared(l, skip, g);
  }

  lemma OneEachUnits(skip: seq<bool>, a: bytes, b: bytes, env: Env)
    ensures Units(OneEach(skip, a, b, env), skip)
  {
  }

  lemma OneEachHashed(skip: seq<bool>, a: bytes, b: bytes, env: Env)
    requires |a| <= RECOVERABLE && |b| <= RECOVERABLE
    ensures AllWellHashed(OneEach(skip, a, b, env).strands, env)
  {
    forall x | 0 <= x < |skip| ensures WellHashed(OneEach(skip, a, b, env).strands[x], env) {
      WalStrandWellHashedIff(1, x + 1, Payloads(skip, a, b)[x], env);
    }
  }

  lemma OneEachPruned(skip: seq<bool>, x: nat, a: bytes, b: bytes, filter: FilterSize, env: Env)
    requires env.fnv(a) != env.fnv(b) && |a| <= RECOVERABLE && |b| <= RECOVERABLE && x < |skip|
    ensures var l := OneEach(skip, a, b, env);
            Pruned(l.ranges[x], l.strands, AskingFor(b, filter, env)) <==> skip[x]
  {
    var l := OneEach(skip, a, b, env);
    UnitSlice(x, l.strands);
    assert Slice(l.ranges[x], l.strands) == [l.strands[x]];
    OneStrandPruned(x + 1, Payloads(skip, a, b)[x], b, filter, env);
  }

  /** The blocks are the segments, so they cut them up and are flagged alike. */
  lemma UnitsPrepared(l: Layout, skip: seq<bool>, g: Guide)
    requires Units(l, skip) && AllWellHashed(l.strands, g.env)
    requires forall x :: 0 <= x < |skip| ==> (skip[x] <==> Pruned(l.ranges[x], l.strands, g))
    requires |g.clauses| == 1 && g.clauses[0].ExactMatch? && g.clauses[0].field == PAYLOAD
    ensures Prepared(l, skip, g)
  {
    UnitsCutUp(l, skip);
    ExactIsGuidable(l.strands, g);
    forall x | 0 <= x < |skip| ensures BlockFlagsAt(l, x, g) {
      UnitBlock(l, skip, x, g);
    }
  }

  lemma UnitsCutUp(l: Layout, skip: seq<bool>)
    requires Units(l, skip)
    ensures Flat(l.ranges, l.strands) == l.strands
  {
    FlatUnits(l.ranges, l.strands, |skip|);
    assert l.ranges[..|skip|] == l.ranges && l.strands[..|skip|] == l.strands;
  }

  lemma ExactIsGuidable(strands: seq<Strand>, g: Guide)
    requires |g.clauses| == 1 && g.clauses[0].ExactMatch? && g.clauses[0].field == PAYLOAD
    ensures Guidable(strands, g)
  {
  }

  lemma UnitBlock(l: Layout, skip: seq<bool>, x: nat, g: Guide)
    requires Units(l, skip) && x < |skip| && (skip[x] <==> Pruned(l.ranges[x], l.strands, g))
    ensures BlockFlagsAt(l, x, g)
  {
    var seg := l.ranges[x];
    assert Clipped(seg, Range(0, 1), |l.strands|) == seg;
    OneBlock(seg, |l.strands|);
    FlatOne(seg, l.strands);
  }

  lemma UnitSlice(x: nat, strands: seq<Strand>)
    requires x < |strands|
    ensures Slice(Range(x, x + 1), strands) == [strands[x]]
  {
  }

  lemma {:induction false} FlatUnits(ranges: seq<Range>, strands: seq<Strand>, p: nat)
    requires |ranges| == |strands| && p <= |ranges| && forall x :: 0 <= x < |ranges| ==> ranges[x] == Range(x, x + 1)
    ensures Flat(ranges[..p], strands) == strands[..p]
    decreases p
  {
    if p == 0 {
    } else {
      FlatUnits(ranges, strands, p - 1);
      FlatStep(ranges, strands, p);
      UnitSlice(p - 1, strands);
      SlicesJoin(strands, 0, p - 1, p);
    }
  }

  lemma OneBlock(seg: Range, n: nat)
    ensures ClippedAll(seg, [Range(0, 1)], n) == [Clipped(seg, Range(0, 1), n)]
  {
    assert [Range(0, 1)][..0] == [] && ClippedAll(seg, [], n) == [];
  }

  /** After a gap the scan returns fewer strands than there are to find. */
  lemma MisalignedLoses(skip: seq<bool>, i: nat, j: nat, a: bytes, b: bytes, filter: FilterSize, env: Env)
    requires env.fnv(a) != env.fnv(b) && |a| <= RECOVERABLE && |b| <= RECOVERABLE
    requires i < j < |skip| && skip[i] && !skip[j] && forall k :: 0 <= k < i ==> !skip[k]
    ensures var l, g := OneEach(skip, a, b, env), AskingFor(b, filter, env);
            && Prepared(l, skip, g)
            && |Answer(Scanned(l, skip), l.strands, g)| < |Filter(Wanted(g), l.strands)|
  {
    var l, g := OneEach(skip, a, b, env), AskingFor(b, filter, env);
    OneEachPrepared(skip, a, b, filter, env);
    AnswerIsFound(Scanned(l, skip), l.strands, g);
    forall x | 0 <= x < |skip| ensures Wanted(g)(l.strands[x]) <==> !skip[x] {
      OneEachWanted(skip, x, a, b, filter, env);
    }
    UnitsLose(l, skip, i, j, Wanted(g));
  }

  lemma OneEachWanted(skip: seq<bool>, x: nat, a: bytes, b: bytes, filter: FilterSize, env: Env)
    requires a != b && |a| <= RECOVERABLE && |b| <= RECOVERABLE && x < |skip|
    ensures Wanted(AskingFor(b, filter, env))(OneEach(skip, a, b, env).strands[x]) <==> !skip[x]
  {
    WantedIsB(x + 1, Payloads(skip, a, b)[x], b, filter, env);
  }

  lemma UnitsLose(l: Layout, skip: seq<bool>, i: nat, j: nat, wanted: Strand -> bool)
    requires Units(l, skip) && forall x :: 0 <= x < |skip| ==> (wanted(l.strands[x]) <==> !skip[x])
    requires i < j < |skip| && skip[i] && !skip[j] && forall k :: 0 <= k < i ==> !skip[k]
    ensures |Found(l, skip, wanted)| < |Filter(wanted, l.strands)|
  {
    var survivors := Surviving(l.ranges, skip);
    SurvivorsWanted(l.ranges, l.strands, skip, wanted, |skip|);
    PastGap(l.ranges, skip, i, j, |skip|);
    assert l.ranges[..|skip|] == l.ranges && l.strands[..|skip|] == l.strands;
    OneLess(l, skip, i, survivors, wanted);
  }

  lemma WantedIsB(sequence: nat, value: bytes, b: bytes, filter: FilterSize, env: Env)
    requires |value| <= RECOVERABLE
    ensures Wanted(AskingFor(b, filter, env))(StrandFromWalPayload(1, sequence, value, env)) <==> value == b
  {
    assert Recovered(value) == value;
    PayloadVerifiesIff(1, sequence, value, ExactMatch(PAYLOAD, b, Encoded(b).codons), env);
  }

  /** There are as many survivors as wanted strands. */
  lemma {:induction false} SurvivorsWanted(ranges: seq<Range>, strands: seq<Strand>, skip: seq<bool>,
                                           wanted: Strand -> bool,
                                           p: nat)
    requires |ranges| == |strands| == |skip| && p <= |skip|
    requires forall x :: 0 <= x < |skip| ==> ranges[x] == Range(x, x + 1) && (wanted(strands[x]) <==> !skip[x])
    ensures |Filter(wanted, strands[..p])| == |Surviving(ranges[..p], skip)| <= p
    ensures forall t :: 0 <= t < |Surviving(ranges[..p], skip)| ==> IsUnit(Surviving(ranges[..p], skip)[t], |strands|)
    decreases p
  {
    if p == 0 {
    } else {
      assert strands[..p][..p - 1] == strands[..p - 1] && ranges[..p][..p - 1] == ranges[..p - 1];
      SurvivorsWanted(ranges, strands, skip, wanted, p - 1);
    }
  }

  predicate IsUnit(r: Range, n: nat) {
    r.end == r.start + 1 <= n
  }

  lemma {:induction false} PastGap(ranges: seq<Range>, skip: seq<bool>, i: nat, j: nat, p: nat)
    requires |ranges| == |skip| && p <= |skip| && i < j < |skip| && !skip[j] && forall k :: 0 <= k < i ==> !skip[k]
    ensures |Surviving(ranges[..p], skip)| >= Min(p, i) + if p > j then 1 else 0
    decreases p
  {
    if p == 0 {
    } else {
      assert ranges[..p][..p - 1] == ranges[..p - 1];
      PastGap(ranges, skip, i, j, p - 1);
    }
  }

  predicate Grows(count: nat -> nat, skip: seq<bool>, t: nat)
    requires t < |skip|
  {
    count(t + 1) <= count(t) + if skip[t] then 0 else 1
  }

  /** A count that grows by at most one a step, and not at step `i`, stays one behind after it. */
  lemma {:induction false} OneBehind(count: nat -> nat, skip: seq<bool>, i: nat, p: nat)
    requires p <= |skip| && i < |skip| && skip[i] && count(0) == 0
    requires forall t: nat :: t < p ==> Grows(count, skip, t)
    ensures count(p) <= p - if p > i then 1 else 0
  {
    if p == 0 {
    } else {
      OneBehind(count, skip, i, p - 1);
      assert Grows(count, skip, p - 1);
    }
  }

  /** Each survivor gives at most its one strand, and the one at the gap gives none. */
  lemma OneLess(l: Layout, skip: seq<bool>, i: nat, survivors: seq<Range>, wanted: Strand -> bool)
    requires Units(l, skip) && i < |survivors| <= |skip| && skip[i]
    requires forall t :: 0 <= t < |survivors| ==> IsUnit(survivors[t], |l.strands|)
    ensures |Filter(wanted, Flat(Candidates(survivors, l.blockRanges, l.blockSkips, |l.strands|), l.strands))|
         < |survivors|
  {
    var count := (p: nat) =>
      |Filter(wanted, Flat(Candidates(Take(survivors, p), l.blockRanges, l.blockSkips, |l.strands|), l.strands))|;
    NothingFound(Take(survivors, 0), l.blockRanges, l.blockSkips, l.strands, wanted);
    forall t: nat | t < |survivors| ensures Grows(count, skip, t) {
      OneLessStep(survivors, l.blockRanges, l.blockSkips, skip, l.strands, wanted, t);
    }
    OneBehind(count, skip, i, |survivors|);
    assert Take(survivors, |survivors|) == survivors;
  }

  lemma OneLessStep(survivors: seq<Range>, blockRanges: seq<seq<Range>>, blockSkips: seq<seq<bool>>, skip: seq<bool>,
                    strands: seq<Strand>, wanted: Strand -> bool, t: nat)
    requires t < |survivors| <= |blockRanges| && |blockRanges| == |blockSkips| == |skip|
    requires IsUnit(survivors[t], |strands|)
    requires blockRanges[t] == [Range(0, 1)] && blockSkips[t] == [skip[t]]
    ensures |Filter(wanted, Flat(Candidates(survivors[..t + 1], blockRanges, blockSkips, |strands|), strands))|
         <= |Filter(wanted, Flat(Candidates(survivors[..t], blockRanges, blockSkips, |strands|), strands))|
            + if skip[t] then 0 else 1
  {
    var n := |strands|;
    OwnIsSmall(survivors[t], skip[t], strands, wanted);
    var own := BlockCandidates(survivors[t], [Range(0, 1)], [skip[t]], n);
    CandidatesStep(survivors, blockRanges, blockSkips, n, t, own);
    OneMore(Candidates(survivors[..t], blockRanges, blockSkips, n), own, strands, wanted);
  }

  lemma CandidatesStep(survivors: seq<Range>, blockRanges: seq<seq<Range>>, blockSkips: seq<seq<bool>>, n: nat, t: nat,
                       own: seq<Range>)
    requires t < |survivors| && own == Own(survivors[t], t, blockRanges, blockSkips, n)
    ensures Candidates(survivors[..t + 1], blockRanges, blockSkips, n)
         == Candidates(survivors[..t], blockRanges, blockSkips, n) + own
  {
    assert survivors[..t + 1][..t] == survivors[..t];
  }

  lemma OneMore(before: seq<Range>, own: seq<Range>, strands: seq<Strand>, wanted: Strand -> bool)
    ensures |Filter(wanted, Flat(before + own, strands))|
         == |Filter(wanted, Flat(before, strands))| + |Filter(wanted, Flat(own, strands))|
  {
    FlatAppend(before, own, strands);
    FilterAppend(wanted, Flat(before, strands), Flat(own, strands));
  }

  lemma OwnIsSmall(survivor: Range, skipped: bool, strands: seq<Strand>, wanted: Strand -> bool)
    requires IsUnit(survivor, |strands|)
    ensures |Filter(wanted, Flat(BlockCandidates(survivor, [Range(0, 1)], [skipped], |strands|), strands))|
         <= if skipped then 0 else 1
  {
    var n := |strands|;
    assert [Range(0, 1)][..0] == [] && BlockCandidates(survivor, [], [skipped], n) == [];
    assert Clipped(survivor, Range(0, 1), n) == survivor;
    if skipped {
      assert BlockCandidates(survivor, [Range(0, 1)], [skipped], n) == [];
    } else {
      assert BlockCandidates(survivor, [Range(0, 1)], [skipped], n) == [survivor];
      FlatOne(survivor, strands);
      UnitSlice(survivor.start, strands);
      FilterOne(wanted, strands[survivor.start]);
    }
  }

  lemma FilterOne(wanted: Strand -> bool, s: Strand)
    ensures |Filter(wanted, [s])| <= 1
  {
    assert [s][..0] == [];
  }
}
