/** Segment metadata: Bloom filters, numeric bounds and dictionaries, and the decision to skip a segment. */
module Segments {
  import opened Wrappers
  import opened Bytes
  import opened Strands
  import opened Dictionaries

  // ----- Bloom filters ----------------------------------------------------------------------

  function Slot(value: bytes, seed: nat, slots: nat, seeded: (bytes, nat) -> nat): nat
    requires slots > 0
  {
    seeded(value, seed) % slots
  }

  /** One of the first `hashes` slots of the value is this one. */
  ghost predicate Marks(value: bytes, hashes: nat, slots: nat, seeded: (bytes, nat) -> nat, i: nat)
    requires slots > 0
  {
    exists seed :: 0 <= seed < hashes && Slot(value, seed, slots, seeded) == i
  }

  ghost predicate Marked(values: set<bytes>, hashes: nat, slots: nat, seeded: (bytes, nat) -> nat, i: nat)
    requires slots > 0
  {
    exists v :: v in values && Marks(v, hashes, slots, seeded, i)
  }

  lemma MarkedByOneMore(values: set<bytes>, value: bytes, hashes: nat, slots: nat, seeded: (bytes, nat) -> nat, i: nat)
    requires slots > 0
    ensures Marked(values + {value}, hashes, slots, seeded, i)
       <==> Marked(values, hashes, slots, seeded, i) || Marks(value, hashes, slots, seeded, i)
  {
    if Marks(value, hashes, slots, seeded, i) {
      assert value in values + {value};
    }
    if Marked(values, hashes, slots, seeded, i) {
      var v :| v in values && Marks(v, hashes, slots, seeded, i);
      assert v in values + {value};
    }
  }

  class BloomFilter {
    const seeded: (bytes, nat) -> nat
    const hashCount: nat
    const field: nat
    const bits: array<byte>

    /** Every value added so far. */
    ghost var members: set<bytes>

    ghost predicate Valid()
      reads this, bits
    {
      && bits.Length >= 8 && hashCount >= 1
      && forall i :: 0 <= i < bits.Length ==>
           bits[i] == if Marked(members, hashCount, bits.Length, seeded, i) then 1 else 0
    }

    constructor (bitsLen: nat, hashCount: nat, field: nat, seeded: (bytes, nat) -> nat)
      ensures Valid() && members == {} && this.field == field && this.seeded == seeded
      ensures this.hashCount == Max(hashCount, 1) && bits.Length == Max(bitsLen, 8) && fresh(bits)
    {
      this.seeded, this.hashCount, this.field := seeded, Max(hashCount, 1), field;
      bits := new byte[Max(bitsLen, 8)](_ => 0);
      members := {};
    }

    method Add(value: bytes)
      requires Valid()
      modifies bits, this`members
      ensures Valid() && members == old(members) + {value}
    {
      ghost var n := bits.Length;
      for seed := 0 to hashCount
        invariant members == old(members)
        invariant forall i :: 0 <= i < n ==> bits[i] == if Marks(value, seed, n, seeded, i) then 1 else old(bits[i])
      {
        var bit := Slot(value, seed, bits.Length, seeded);
        bits[bit] := 1;
        forall i | 0 <= i < n ensures Marks(value, seed + 1, n, seeded, i)
           <==> Marks(value, seed, n, seeded, i) || i == bit {
          assert Slot(value, seed, n, seeded) == bit;
        }
      }
      members := members + {value};
      forall i | 0 <= i < n ensures bits[i] == if Marked(members, hashCount, n, seeded, i) then 1 else 0 {
        MarkedByOneMore(old(members), value, hashCount, n, seeded, i);
      }
    }

    predicate MightContain(value: bytes)
      requires bits.Length >= 8
      reads bits
    {
      forall seed | 0 <= seed < hashCount :: bits[Slot(value, seed, bits.Length, seeded)] == 1
    }

    /** The answer is yes iff every slot of the value is a slot of some member; a member's always is. */
    lemma MightContainIff(value: bytes)
      requires Valid()
      ensures MightContain(value) <==>
                forall seed :: 0 <= seed < hashCount ==>
                  Marked(members, hashCount, bits.Length, seeded, Slot(value, seed, bits.Length, seeded))
      ensures value in members ==> MightContain(value)
    {
      if value in members {
        forall seed | 0 <= seed < hashCount
          ensures Marked(members, hashCount, bits.Length, seeded, Slot(value, seed, bits.Length, seeded))
        {
          assert Marks(value, hashCount, bits.Length, seeded, Slot(value, seed, bits.Length, seeded));
        }
      }
    }
  }

  /** The size of every filter of a build. */
  datatype FilterSize = FilterSize(bits: nat, hashes: nat) {
    const slots: nat := Max(bits, 8)
    const seeds: nat := Max(hashes, 1)
  }

  /** The answer of a filter with these members. */
  ghost predicate Covers(members: set<bytes>, value: bytes, filter: FilterSize, env: Env) {
    forall seed :: 0 <= seed < filter.seeds ==>
      Marked(members, filter.seeds, filter.slots, env.seeded, Slot(value, seed, filter.slots, env.seeded))
  }

  // ----- What a segment is seen to hold -----------------------------------------------------

  /** One intron as the builder meets it. */
  datatype Sighting = Sighting(field: nat, valueHash: nat, payload: Option<bytes>)

  function FieldHash(name: string, env: Env): nat {
    env.fnv(Utf8(name))
  }

  function Sighted(s: Strand, i: Intron, env: Env): Sighting {
    Sighting(FieldHash(i.fieldName, env), i.valueHash, IntronPayloadBytes(s, i))
  }

  function SightingsOf(s: Strand, introns: seq<Intron>, env: Env): seq<Sighting> {
    if introns == [] then [] else SightingsOf(s, introns[..|introns| - 1],
                                              env) + [Sighted(s, introns[|introns| - 1], env)]
  }

  function Sightings(strands: seq<Strand>, env: Env): seq<Sighting> {
    if strands == [] then []
    else
      var last := strands[|strands| - 1];
      Sightings(strands[..|strands| - 1], env) + SightingsOf(last, last.introns, env)
  }

  /** The values and numeric bounds of one field. */
  datatype FieldView = FieldView(members: set<bytes>, hasNumeric: bool, minNumeric: u64, maxNumeric: u64)

  const UNSEEN := FieldView({}, false, U64_MAX, 0)

  function Seen(v: FieldView, payload: Option<bytes>, env: Env): FieldView {
    if payload.None? then v
    else
      var members := v.members + {payload.value};
      match env.numeric(payload.value)
      case None => v.(members := members)
      case Some(n) => FieldView(members, true, Min(v.minNumeric, n), Max(v.maxNumeric, n))
  }

  function ViewOf(ss: seq<Sighting>, field: nat, env: Env): FieldView {
    if ss == [] then UNSEEN
    else
      var before := ViewOf(ss[..|ss| - 1], field, env);
      if ss[|ss| - 1].field == field then Seen(before, ss[|ss| - 1].payload, env) else before
  }

  function Counted(freqs: map<nat, nat>, hash: nat): map<nat, nat> {
    freqs[hash := (if hash in freqs then freqs[hash] else 0) + 1]
  }

  function FreqsOf(ss: seq<Sighting>, field: nat): map<nat, nat> {
    if ss == [] then map[]
    else
      var before := FreqsOf(ss[..|ss| - 1], field);
      if ss[|ss| - 1].field == field then Counted(before, ss[|ss| - 1].valueHash) else before
  }

  // ----- Building ---------------------------------------------------------------------------

  class FieldStats {
    const field: nat
    const bloom: BloomFilter
    var hasNumeric: bool
    var minNumeric: u64
    var maxNumeric: u64

    constructor (field: nat, bloom: BloomFilter)
      requires bloom.members == {}
      ensures this.field == field && this.bloom == bloom && View() == UNSEEN
    {
      this.field, this.bloom, hasNumeric, minNumeric, maxNumeric := field, bloom, false, U64_MAX, 0;
    }

    ghost function View(): FieldView
      reads this, bloom
    {
      FieldView(bloom.members, hasNumeric, minNumeric, maxNumeric)
    }

    method Record(payload: Option<bytes>, env: Env)
      requires bloom.Valid()
      modifies this, bloom.bits, bloom`members
      ensures bloom.Valid() && View() == Seen(old(View()), payload, env)
    {
      if payload.Some? {
        bloom.Add(payload.value);
        var n := env.numeric(payload.value);
        if n.Some? {
          hasNumeric := true;
          minNumeric := Min(minNumeric, n.value);
          maxNumeric := Max(maxNumeric, n.value);
        }
      }
    }
  }

  /** Every field has statistics and filter bits of its own. */
  ghost predicate Filed(stats: map<nat, FieldStats>, repr: set<object>) {
    && (forall f :: f in stats ==>
          && stats[f].field == f && stats[f].bloom.field == f
          && stats[f] in repr && stats[f].bloom in repr && stats[f].bloom.bits in repr)
    && (forall f, g :: f in stats && g in stats && f != g ==> stats[f].bloom.bits != stats[g].bloom.bits)
  }

  ghost predicate Summarizes(stats: FieldStats, view: FieldView, filter: FilterSize, env: Env)
    reads stats, stats.bloom, stats.bloom.bits
  {
    && stats.bloom.Valid() && stats.bloom.seeded == env.seeded && stats.View() == view
    && stats.bloom.hashCount == filter.seeds && stats.bloom.bits.Length == filter.slots
  }

  /** Statistics and tallies are those of what has been seen so far. */
  ghost predicate UpToDate(stats: map<nat, FieldStats>, freqs: map<nat, map<nat, nat>>, ss: seq<Sighting>,
                           filter: FilterSize, env: Env, repr: set<object>)
    reads repr
  {
    && Filed(stats, repr) && freqs.Keys == stats.Keys
    && (forall f :: f in stats ==> Summarizes(stats[f], ViewOf(ss, f, env), filter, env))
    && (forall f :: f in freqs ==> freqs[f] == FreqsOf(ss, f))
  }

  function TrackedHashes(tracked: seq<string>, env: Env): set<nat> {
    set k | 0 <= k < |tracked| :: FieldHash(tracked[k], env)
  }

  /** No number within the bounds satisfies the comparison. */
  predicate OutOfBounds(op: RangeOp, n: nat, minNumeric: nat, maxNumeric: nat) {
    match op
    case GreaterThan => maxNumeric <= n
    case GreaterOrEqual => maxNumeric < n
    case LessThan => minNumeric >= n
    case LessOrEqual => minNumeric > n
    case NotEqual => minNumeric == n && maxNumeric == n
  }

  class SegmentMeta {
    const segmentId: nat
    const recordCount: nat
    const fieldStats: map<nat, FieldStats>
    const dictionaries: map<nat, Dictionary>
    ghost const repr: set<object>

    constructor (segmentId: nat, recordCount: nat, fieldStats: map<nat, FieldStats>, dictionaries: map<nat, Dictionary>,
                 ghost repr: set<object>)
      ensures this.segmentId == segmentId && this.recordCount == recordCount && this.fieldStats == fieldStats
      ensures this.dictionaries == dictionaries && this.repr == repr
    {
      this.segmentId, this.recordCount, this.fieldStats, this.dictionaries, this.repr :=
        segmentId, recordCount, fieldStats, dictionaries, repr;
    }

    /** The metadata a build over these strands leaves. */
    ghost predicate Describes(strands: seq<Strand>, tracked: seq<string>, filter: FilterSize, env: Env)
      reads repr
    {
      var ss := Sightings(strands, env);
      && Filed(fieldStats, repr)
      && fieldStats.Keys == dictionaries.Keys == TrackedHashes(tracked, env)
      && (forall f :: f in fieldStats ==> Summarizes(fieldStats[f], ViewOf(ss, f, env), filter, env))
      && (forall f :: f in dictionaries ==> dictionaries[f] == DictionaryOf(FreqsOf(ss, f)))
    }

    /** The metadata can be asked: its filters are filters. */
    ghost predicate Askable()
      reads repr
    {
      Filed(fieldStats, repr) && forall f :: f in fieldStats ==> fieldStats[f].bloom.Valid()
    }

    /** One clause rules the segment out. */
    predicate ShouldSkipClause(c: Clause, useDictionaries: bool, env: Env)
      requires Askable()
      reads repr
    {
      var f := FieldHash(c.field, env);
      if c.LikePattern? || f !in fieldStats then false
      else if c.ExactMatch? then
        || (useDictionaries && f in dictionaries && dictionaries[f].IsComplete()
            && !dictionaries[f].ContainsHash(env.fnv(c.wire)))
        || !fieldStats[f].bloom.MightContain(c.wire)
      else
        var n := env.numeric(c.wire);
        && n.Some? && fieldStats[f].hasNumeric
        && OutOfBounds(c.op, n.value, fieldStats[f].minNumeric, fieldStats[f].maxNumeric)
    }

    predicate ShouldSkip(clauses: seq<Clause>, useDictionaries: bool, env: Env)
      requires Askable()
      reads repr
    {
      exists k | 0 <= k < |clauses| :: ShouldSkipClause(clauses[k], useDictionaries, env)
    }

    static method Build(segmentId: nat, strands: seq<Strand>, tracked: seq<string>, filter: FilterSize, env: Env)
      returns (meta: SegmentMeta)
      ensures fresh(meta) && fresh(meta.repr) && meta.segmentId == segmentId && meta.recordCount == |strands|
      ensures meta.Describes(strands, tracked, filter, env)
    {
      ghost var repr: set<object>;
      var stats;
      stats, repr := Track(tracked, filter, env);
      var freqs := SeeStrands(stats, strands, filter, env, repr);
      var dictionaries := BuildFieldDictionaries(freqs);
      meta := new SegmentMeta(segmentId, |strands|, stats, dictionaries, repr);
    }
  }

  /** Empty statistics for every tracked field. */
  method Track(tracked: seq<string>, filter: FilterSize, env: Env)
    returns (stats: map<nat, FieldStats>, ghost repr: set<object>)
    ensures fresh(repr) && Filed(stats, repr) && stats.Keys == TrackedHashes(tracked, env)
    ensures forall f :: f in stats ==> Summarizes(stats[f], UNSEEN, filter, env)
  {
    stats, repr := map[], {};
    for k := 0 to |tracked|
      invariant fresh(repr) && Filed(stats, repr) && stats.Keys == TrackedHashes(tracked[..k], env)
      invariant forall f :: f in stats ==> Summarizes(stats[f], UNSEEN, filter, env)
    {
      var fh := FieldHash(tracked[k], env);
      var bloom := new BloomFilter(filter.bits, filter.hashes, fh, env.seeded);
      var field := new FieldStats(fh, bloom);
      assert TrackedHashes(tracked[..k + 1], env) == TrackedHashes(tracked[..k], env) + {fh} by {
        forall h ensures h in TrackedHashes(tracked[..k + 1], env) <==> h in TrackedHashes(tracked[..k], env) + {fh} {
          if h in TrackedHashes(tracked[..k], env) {
            var j :| 0 <= j < k && FieldHash(tracked[..k][j], env) == h;
            assert tracked[..k + 1][j] == tracked[..k][j];
          }
          assert tracked[..k + 1][k] == tracked[k];
        }
      }
      stats, repr := stats[fh := field], repr + {field, bloom, bloom.bits};
    }
    assert tracked[..|tracked|] == tracked;
  }

  /** The loop of a build, on fresh statistics. */
  method SeeStrands(stats: map<nat, FieldStats>, strands: seq<Strand>, ghost filter: FilterSize, env: Env,
                    ghost repr: set<object>)
    returns (freqs: map<nat, map<nat, nat>>)
    requires Filed(stats, repr) && forall f :: f in stats ==> Summarizes(stats[f], UNSEEN, filter, env)
    modifies repr
    ensures UpToDate(stats, freqs, Sightings(strands, env), filter, env, repr)
  {
    freqs := map f | f in stats :: map[];
    for i := 0 to |strands|
      invariant UpToDate(stats, freqs, Sightings(strands[..i], env), filter, env, repr)
    {
      assert strands[..i + 1][..i] == strands[..i];
      freqs := SeeStrand(stats, freqs, strands[i], Sightings(strands[..i], env), filter, env, repr);
    }
    assert strands[..|strands|] == strands;
  }

  /** The inner loop of a build: the introns of one strand. */
  method SeeStrand(stats: map<nat, FieldStats>, freqs: map<nat, map<nat, nat>>, s: Strand, ghost ss: seq<Sighting>,
                   ghost filter: FilterSize, env: Env, ghost repr: set<object>)
    returns (freqs': map<nat, map<nat, nat>>)
    requires UpToDate(stats, freqs, ss, filter, env, repr)
    modifies repr
    ensures UpToDate(stats, freqs', ss + SightingsOf(s, s.introns, env), filter, env, repr)
  {
    freqs' := freqs;
    assert ss + [] == ss;
    for k := 0 to |s.introns|
      invariant UpToDate(stats, freqs', ss + SightingsOf(s, s.introns[..k], env), filter, env, repr)
    {
      ghost var before := SightingsOf(s, s.introns[..k], env);
      assert s.introns[..k + 1][..k] == s.introns[..k];
      Regroup(ss, before, [Sighted(s, s.introns[k], env)]);
      freqs' := SeeIntron(stats, freqs', Sighted(s, s.introns[k], env), ss + before, filter, env, repr);
    }
    assert s.introns[..|s.introns|] == s.introns;
  }

  method SeeIntron(stats: map<nat, FieldStats>, freqs: map<nat, map<nat, nat>>, x: Sighting, ghost ss: seq<Sighting>,
                   ghost filter: FilterSize, env: Env, ghost repr: set<object>)
    returns (freqs': map<nat, map<nat, nat>>)
    requires UpToDate(stats, freqs, ss, filter, env, repr)
    modifies repr
    ensures UpToDate(stats, freqs', ss + [x], filter, env, repr)
  {
    assert (ss + [x])[..|ss|] == ss;
    if x.field !in stats {
      return freqs;
    }
    freqs' := freqs[x.field := Counted(freqs[x.field], x.valueHash)];
    stats[x.field].Record(x.payload, env);
  }

  method BuildFieldDictionaries(freqs: map<nat, map<nat, nat>>) returns (ds: map<nat, Dictionary>)
    ensures ds.Keys == freqs.Keys
    ensures forall f :: f in freqs ==> ds[f] == DictionaryOf(freqs[f])
  {
    ds := map[];
    var todo := freqs.Keys;
    while todo != {}
      invariant todo <= freqs.Keys && ds.Keys == freqs.Keys - todo
      invariant forall f :: f in ds ==> ds[f] == DictionaryOf(freqs[f])
    {
      var f :| f in todo;
      var d := BuildDictionary(freqs[f]);
      ds := ds[f := d];
      todo := todo - {f};
    }
  }

  // ----- Skipping loses nothing -------------------------------------------------------------

  ghost predicate SawValue(ss: seq<Sighting>, field: nat, value: bytes) {
    exists i :: 0 <= i < |ss| && ss[i].field == field && ss[i].payload == Some(value)
  }

  ghost predicate SawHash(ss: seq<Sighting>, field: nat, hash: nat) {
    exists i :: 0 <= i < |ss| && ss[i].field == field && ss[i].valueHash == hash
  }

  /** The filter of a field holds exactly the values that decoded, of all its introns. */
  lemma {:induction false} MembersAreSeen(ss: seq<Sighting>, field: nat, value: bytes, env: Env)
    ensures value in ViewOf(ss, field, env).members <==> SawValue(ss, field, value)
  {
    if ss == [] {
    } else {
      var front, x := ss[..|ss| - 1], ss[|ss| - 1];
      MembersAreSeen(front, field, value, env);
      assert forall i :: 0 <= i < |front| ==> front[i] == ss[i];
      assert ss[|front|] == x;
    }
  }

  /** The tallies of a field count exactly its value hashes. */
  lemma {:induction false} TalliesAreSeen(ss: seq<Sighting>, field: nat, hash: nat)
    ensures hash in FreqsOf(ss, field) <==> SawHash(ss, field, hash)
    ensures forall h :: h in FreqsOf(ss, field) ==> FreqsOf(ss, field)[h] >= 1
  {
    if ss == [] {
    } else {
      var front, x := ss[..|ss| - 1], ss[|ss| - 1];
      TalliesAreSeen(front, field, hash);
      assert forall i :: 0 <= i < |front| ==> front[i] == ss[i];
      assert ss[|front|] == x;
    }
  }

  lemma {:induction false} IntronSighted(s: Strand, introns: seq<Intron>, k: nat, env: Env)
    requires k < |introns|
    ensures Sighted(s, introns[k], env) in SightingsOf(s, introns, env)
  {
    if k == |introns| - 1 {
    } else {
      IntronSighted(s, introns[..|introns| - 1], k, env);
    }
  }

  lemma {:induction false} StrandSighted(strands: seq<Strand>, i: nat, k: nat, env: Env)
    requires i < |strands| && k < |strands[i].introns|
    ensures Sighted(strands[i], strands[i].introns[k], env) in Sightings(strands, env)
  {
    if i < |strands| - 1 {
      StrandSighted(strands[..|strands| - 1], i, k, env);
    } else {
      IntronSighted(strands[i], strands[i].introns, k, env);
    }
  }

  // ----- The decision as a function of the strands ---------------------------------------------

  /** What the numeric reading of a value says of a range clause. */
  predicate NumberMatches(x: nat, op: RangeOp, n: nat) {
    match op
    case GreaterThan => x > n
    case GreaterOrEqual => x >= n
    case LessThan => x < n
    case LessOrEqual => x <= n
    case NotEqual => x != n
  }

  function Reading(x: Sighting, field: nat, env: Env): Option<u64> {
    if x.field == field && x.payload.Some? then env.numeric(x.payload.value) else None
  }

  ghost predicate SawNumber(ss: seq<Sighting>, field: nat, n: u64, env: Env) {
    exists i :: 0 <= i < |ss| && Reading(ss[i], field, env) == Some(n)
  }

  /** The field holds some number, and none that satisfies the clause. */
  ghost predicate RuledOut(ss: seq<Sighting>, field: nat, op: RangeOp, n: nat, env: Env) {
    && (exists x: u64 :: SawNumber(ss, field, x, env))
    && (forall x: u64 :: SawNumber(ss, field, x, env) ==> !NumberMatches(x, op, n))
  }

  ghost predicate SkipsClause(ss: seq<Sighting>, tracked: seq<string>, filter: FilterSize, c: Clause, dicts: bool,
                              env: Env) {
    var f := FieldHash(c.field, env);
    if c.LikePattern? || f !in TrackedHashes(tracked, env) then false
    else if c.ExactMatch? then
      var dictionary := DictionaryOf(FreqsOf(ss, f));
      || (dicts && dictionary.IsComplete() && !dictionary.ContainsHash(env.fnv(c.wire)))
      || !Covers(ViewOf(ss, f, env).members, c.wire, filter, env)
    else
      var n := env.numeric(c.wire);
      n.Some? && RuledOut(ss, f, c.op, n.value, env)
  }

  /** A segment of these strands is skipped. */
  ghost predicate Skips(strands: seq<Strand>, tracked: seq<string>, filter: FilterSize, clauses: seq<Clause>,
                        dicts: bool,
                        env: Env)
  {
    exists k :: 0 <= k < |clauses| && SkipsClause(Sightings(strands, env), tracked, filter, clauses[k], dicts, env)
  }

  lemma SawNumberSnoc(ss: seq<Sighting>, field: nat, n: u64, env: Env)
    requires ss != []
    ensures SawNumber(ss, field, n, env)
       <==> SawNumber(ss[..|ss| - 1], field, n, env) || Reading(ss[|ss| - 1], field, env) == Some(n)
  {
    var front := ss[..|ss| - 1];
    if SawNumber(front, field, n, env) {
      var i :| 0 <= i < |front| && Reading(front[i], field, env) == Some(n);
      assert Reading(ss[i], field, env) == Some(n);
    }
    if SawNumber(ss, field, n, env) {
      var i :| 0 <= i < |ss| && Reading(ss[i], field, env) == Some(n);
      assert i < |front| ==> Reading(front[i], field, env) == Some(n);
    }
  }

  /** The bounds of a field are the least and the greatest of its numbers. */
  ghost predicate Bounds(v: FieldView, ss: seq<Sighting>, field: nat, env: Env) {
    && (v.hasNumeric ==> SawNumber(ss, field, v.minNumeric, env) && SawNumber(ss, field, v.maxNumeric, env))
    && (!v.hasNumeric ==> v.minNumeric == U64_MAX && v.maxNumeric == 0)
    && (forall n: u64 :: SawNumber(ss, field, n, env) ==> v.hasNumeric && v.minNumeric <= n <= v.maxNumeric)
  }

  lemma {:induction false} BoundsAreSeen(ss: seq<Sighting>, field: nat, env: Env)
    ensures Bounds(ViewOf(ss, field, env), ss, field, env)
  {
    if ss == [] {
    } else {
      BoundsAreSeen(ss[..|ss| - 1], field, env);
      BoundsStep(ss, field, env);
    }
  }

  lemma BoundsStep(ss: seq<Sighting>, field: nat, env: Env)
    requires ss != [] && Bounds(ViewOf(ss[..|ss| - 1], field, env), ss[..|ss| - 1], field, env)
    ensures Bounds(ViewOf(ss, field, env), ss, field, env)
  {
    var before, last := ss[..|ss| - 1], Reading(ss[|ss| - 1], field, env);
    forall n: u64 ensures SawNumber(ss, field, n, env) <==> SawNumber(before, field, n, env) || last == Some(n) {
      SawNumberSnoc(ss, field, n, env);
    }
    assert last.None? ==> ViewOf(ss, field, env).(members := {}) == ViewOf(before, field, env).(members := {});
  }

  lemma OutOfBoundsIff(ss: seq<Sighting>, field: nat, op: RangeOp, n: nat, env: Env)
    ensures var v := ViewOf(ss, field, env);
            v.hasNumeric && OutOfBounds(op, n, v.minNumeric, v.maxNumeric) <==> RuledOut(ss, field, op, n, env)
  {
    BoundsAreSeen(ss, field, env);
    var v := ViewOf(ss, field, env);
    if v.hasNumeric {
      assert SawNumber(ss, field, v.minNumeric, env) && SawNumber(ss, field, v.maxNumeric, env);
    }
  }

  /** The metadata decides as its strands do. */
  lemma ClauseSkippedIff(meta: SegmentMeta, strands: seq<Strand>, tracked: seq<string>, filter: FilterSize, c: Clause,
                         dicts: bool, env: Env)
    requires meta.Describes(strands, tracked, filter, env) && meta.Askable()
    ensures meta.ShouldSkipClause(c, dicts, env)
       <==> SkipsClause(Sightings(strands, env), tracked, filter, c, dicts, env)
  {
    var f, ss := FieldHash(c.field, env), Sightings(strands, env);
    if f in meta.fieldStats && !c.LikePattern? {
      assert Summarizes(meta.fieldStats[f], ViewOf(ss, f, env), filter, env);
      if c.ExactMatch? {
        CoversIff(meta.fieldStats[f], ss, filter, c.wire, env);
      } else if env.numeric(c.wire).Some? {
        OutOfBoundsIff(ss, f, c.op, env.numeric(c.wire).value, env);
      }
    }
  }

  lemma CoversIff(stats: FieldStats, ss: seq<Sighting>, filter: FilterSize, value: bytes, env: Env)
    requires Summarizes(stats, ViewOf(ss, stats.field, env), filter, env)
    ensures stats.bloom.MightContain(value) <==> Covers(ViewOf(ss, stats.field, env).members, value, filter, env)
  {
    stats.bloom.MightContainIff(value);
  }

  lemma SkippedIff(meta: SegmentMeta, strands: seq<Strand>, tracked: seq<string>, filter: FilterSize,
                   clauses: seq<Clause>,
                   dicts: bool, env: Env)
    requires meta.Describes(strands, tracked, filter, env) && meta.Askable()
    ensures meta.ShouldSkip(clauses, dicts, env) <==> Skips(strands, tracked, filter, clauses, dicts, env)
  {
    forall k | 0 <= k < |clauses|
      ensures meta.ShouldSkipClause(clauses[k], dicts, env)
         <==> SkipsClause(Sightings(strands, env), tracked, filter, clauses[k], dicts, env)
    {
      ClauseSkippedIff(meta, strands, tracked, filter, clauses[k], dicts, env);
    }
  }

  // ----- Which accepted strands are skipped ----------------------------------------------------

  lemma CarriedIsSeen(strands: seq<Strand>, i: nat, field: string, value: bytes, env: Env)
    requires i < |strands| && Carries(strands[i], strands[i].introns, field, value)
    ensures SawValue(Sightings(strands, env), FieldHash(field, env), value)
    ensures WellHashed(strands[i], env) ==> SawHash(Sightings(strands, env), FieldHash(field, env), env.fnv(value))
  {
    var s, ss := strands[i], Sightings(strands, env);
    var k :| 0 <= k < |s.introns| && SpansValue(s, s.introns[k], field, value);
    StrandSighted(strands, i, k, env);
    var j :| 0 <= j < |ss| && ss[j] == Sighted(s, s.introns[k], env);
  }

  /** An exact clause never rules out a segment that holds its value. */
  lemma ExactIsKept(strands: seq<Strand>, i: nat, tracked: seq<string>, filter: FilterSize, c: Clause, dicts: bool,
                    env: Env)
    requires i < |strands| && WellHashed(strands[i], env) && c.ExactMatch?
    requires Carries(strands[i], strands[i].introns, c.field, c.wire)
    ensures !SkipsClause(Sightings(strands, env), tracked, filter, c, dicts, env)
  {
    var f, ss := FieldHash(c.field, env), Sightings(strands, env);
    CarriedIsSeen(strands, i, c.field, c.wire, env);
    MembersAreSeen(ss, f, c.wire, env);
    MembersAreCovered(ViewOf(ss, f, env).members, c.wire, filter, env);
    TalliesAreSeen(ss, f, env.fnv(c.wire));
    if DictionaryOf(FreqsOf(ss, f)).IsComplete() {
      CompleteListsAll(FreqsOf(ss, f), env.fnv(c.wire));
    }
  }

  /** A filter says yes to a value iff each of its residues is one of a value in it. */
  lemma CoversMeans(members: set<bytes>, value: bytes, filter: FilterSize, env: Env)
    ensures Covers(members, value, filter, env)
            <==> forall seed :: 0 <= seed < Max(filter.hashes, 1) ==>
                   ResidueTaken(members, env.seeded(value, seed) % Max(filter.bits, 8), filter, env)
  {
    forall seed | 0 <= seed < filter.seeds
      ensures Marked(members, filter.seeds, filter.slots, env.seeded, Slot(value, seed, filter.slots, env.seeded))
         <==> ResidueTaken(members, env.seeded(value, seed) % filter.slots, filter, env)
    {
      ResidueIsSlot(members, Slot(value, seed, filter.slots, env.seeded), filter, env);
    }
  }

  ghost predicate ResidueTaken(members: set<bytes>, residue: nat, filter: FilterSize, env: Env) {
    exists w, t :: w in members && 0 <= t < Max(filter.hashes, 1) && env.seeded(w, t) % Max(filter.bits, 8) == residue
  }

  lemma ResidueIsSlot(members: set<bytes>, i: nat, filter: FilterSize, env: Env)
    ensures Marked(members, filter.seeds, filter.slots, env.seeded, i) <==> ResidueTaken(members, i, filter, env)
  {
    if Marked(members, filter.seeds, filter.slots, env.seeded, i) {
      var w :| w in members && Marks(w, filter.seeds, filter.slots, env.seeded, i);
      var t :| 0 <= t < filter.seeds && Slot(w, t, filter.slots, env.seeded) == i;
      assert env.seeded(w, t) % Max(filter.bits, 8) == i;
    }
    if ResidueTaken(members, i, filter, env) {
      var w, t :| w in members && 0 <= t < Max(filter.hashes, 1) && env.seeded(w, t) % Max(filter.bits, 8) == i;
      assert Slot(w, t, filter.slots, env.seeded) == i;
      assert Marks(w, filter.seeds, filter.slots, env.seeded, i);
    }
  }

  /** An intron counts for a field iff the hashes of the two names are the same, for each of its statistics. */
  lemma FieldsAreNames(ss: seq<Sighting>, s: Strand, i: Intron, name: string, env: Env)
    ensures var after := ss + [Sighted(s, i, env)];
            var f := FieldHash(name, env);
            if env.fnv(Utf8(i.fieldName)) == env.fnv(Utf8(name))
            then
              && FreqsOf(after, f) == Counted(FreqsOf(ss, f), i.valueHash)
              && ViewOf(after, f, env) == Seen(ViewOf(ss, f, env), IntronPayloadBytes(s, i), env)
            else FreqsOf(after, f) == FreqsOf(ss, f) && ViewOf(after, f, env) == ViewOf(ss, f, env)
  {
    assert (ss + [Sighted(s, i, env)])[..|ss|] == ss;
  }

  /** The hashes seen in a field. */
  ghost function HashesOf(ss: seq<Sighting>, field: nat): set<nat> {
    set i | 0 <= i < |ss| && ss[i].field == field :: ss[i].valueHash
  }

  lemma TalliedHashes(ss: seq<Sighting>, field: nat)
    ensures FreqsOf(ss, field).Keys == HashesOf(ss, field) && |FreqsOf(ss, field)| == |HashesOf(ss, field)|
    ensures forall h :: h in FreqsOf(ss, field) ==> FreqsOf(ss, field)[h] >= 1
  {
    forall h ensures h in FreqsOf(ss, field) <==> h in HashesOf(ss, field) {
      TalliesAreSeen(ss, field, h);
    }
    forall h | h in FreqsOf(ss, field) ensures FreqsOf(ss, field)[h] >= 1 {
      TalliesAreSeen(ss, field, h);
    }
  }

  /** Some slot of the value is that of no value decoded from the field. */
  ghost predicate SlotUntaken(ss: seq<Sighting>, field: nat, value: bytes, filter: FilterSize, env: Env) {
    exists seed :: 0 <= seed < filter.seeds &&
      !Marked(ViewOf(ss, field, env).members, filter.seeds, filter.slots, env.seeded,
              Slot(value, seed, filter.slots, env.seeded))
  }

  /**
   An exact clause rules a segment out iff its field is tracked and either the field was seen with 1 to
   254 distinct hashes, none of them the value's, or some slot of the value is taken by none of the
   field's values.
   */
  lemma ExactSkipsExactly(ss: seq<Sighting>, tracked: seq<string>, filter: FilterSize, c: Clause, env: Env)
    requires c.ExactMatch?
    ensures var f := FieldHash(c.field, env);
            SkipsClause(ss, tracked, filter, c, true, env)
            <==> f in TrackedHashes(tracked, env)
                 && ((1 <= |HashesOf(ss, f)| <= 254 && env.fnv(c.wire) !in HashesOf(ss, f))
                     || SlotUntaken(ss, f, c.wire, filter, env))
  {
    var f := FieldHash(c.field, env);
    TalliedHashes(ss, f);
    CompleteIff(FreqsOf(ss, f));
    if DictionaryOf(FreqsOf(ss, f)).IsComplete() {
      CompleteListsAll(FreqsOf(ss, f), env.fnv(c.wire));
    }
    assert Covers(ViewOf(ss, f, env).members, c.wire, filter, env) <==> !SlotUntaken(ss, f, c.wire, filter, env);
  }

  /** How often a field was seen. */
  function CountOf(ss: seq<Sighting>, field: nat): nat {
    if ss == [] then 0 else CountOf(ss[..|ss| - 1], field) + if ss[|ss| - 1].field == field then 1 else 0
  }

  /** The total of a field's dictionary is the number of times the field was seen. */
  lemma TotalIsCount(ss: seq<Sighting>, field: nat)
    ensures DictionaryOf(FreqsOf(ss, field)).totalValues == CountOf(ss, field)
  {
    TotalIsOfAll(FreqsOf(ss, field));
    TalliesTotal(ss, field);
  }

  lemma {:induction false} TalliesTotal(ss: seq<Sighting>, field: nat)
    ensures Total(FreqsOf(ss, field)) == CountOf(ss, field)
  {
    if ss == [] {
      assert Total(map[]) == 0;
    } else {
      TalliesTotal(ss[..|ss| - 1], field);
      TotalOfOneMore(FreqsOf(ss[..|ss| - 1], field), ss[|ss| - 1].valueHash);
    }
  }

  lemma MembersAreCovered(members: set<bytes>, value: bytes, filter: FilterSize, env: Env)
    requires value in members
    ensures Covers(members, value, filter, env)
  {
    forall seed | 0 <= seed < filter.seeds
      ensures Marked(members, filter.seeds, filter.slots, env.seeded, Slot(value, seed, filter.slots, env.seeded))
    {
      assert Marks(value, filter.seeds, filter.slots, env.seeded, Slot(value, seed, filter.slots, env.seeded));
    }
  }

  /**
   A segment that holds a strand the verifier accepts is skipped iff some range clause compares its
   field with a number, and the field holds numbers there, none of which satisfies the clause. Exact
   and pattern clauses never cost an accepted strand, with or without the dictionaries.
   */
  lemma AcceptedIsSkippedIff(strands: seq<Strand>, i: nat, tracked: seq<string>, filter: FilterSize,
                             clauses: seq<Clause>,
                             dicts: bool, env: Env)
    requires i < |strands| && WellHashed(strands[i], env) && Verifies(strands[i], clauses, env) && OnValues(clauses)
    ensures Skips(strands, tracked, filter, clauses, dicts, env)
       <==> exists k :: 0 <= k < |clauses| && RangeRulesOut(Sightings(strands, env), tracked, clauses[k], env)
  {
    var ss := Sightings(strands, env);
    forall k | 0 <= k < |clauses|
      ensures SkipsClause(ss, tracked, filter, clauses[k], dicts, env) <==> RangeRulesOut(ss, tracked, clauses[k], env)
    {
      if clauses[k].ExactMatch? {
        AcceptedCarries(strands[i], clauses, k, env);
        ExactIsKept(strands, i, tracked, filter, clauses[k], dicts, env);
      }
    }
  }

  ghost predicate RangeRulesOut(ss: seq<Sighting>, tracked: seq<string>, c: Clause, env: Env) {
    && c.RangeMatch? && FieldHash(c.field, env) in TrackedHashes(tracked, env)
    && env.numeric(c.wire).Some? && RuledOut(ss, FieldHash(c.field, env), c.op, env.numeric(c.wire).value, env)
  }

  // ----- Where range clauses by number and by bytes disagree -----------------------------------

  /** As a number the value satisfies the clause. */
  predicate Granted(value: bytes, op: RangeOp, n: nat, env: Env) {
    env.numeric(value).Some? && NumberMatches(env.numeric(value).value, op, n)
  }

  /** As a number it does not. */
  predicate Refused(value: bytes, op: RangeOp, n: nat, env: Env) {
    env.numeric(value).Some? && !NumberMatches(env.numeric(value).value, op, n)
  }

  /** One value is refused as a number, and one (it may be the same) accepted as bytes but not as a number. */
  ghost predicate Disagree(refused: bytes, accepted: bytes, op: RangeOp, wire: bytes, env: Env)
    requires env.numeric(wire).Some?
  {
    var n := env.numeric(wire).value;
    Refused(refused, op, n, env) && RangeEval(accepted, op, wire) && !Granted(accepted, op, n, env)
  }

  /** Reading values as numbers rules out nothing that is accepted as bytes. */
  ghost predicate ReadsAgree(ss: seq<Sighting>, c: Clause, env: Env) {
    c.RangeMatch? && env.numeric(c.wire).Some? ==>
      forall a, b :: SawValue(ss, FieldHash(c.field, env), a) && SawValue(ss, FieldHash(c.field, env), b) ==>
        !Disagree(a, b, c.op, c.wire, env)
  }

  /** Every value seen in one is seen in the other. */
  ghost predicate SeenIn(part: seq<Sighting>, whole: seq<Sighting>) {
    forall i :: 0 <= i < |part| ==> part[i] in whole
  }

  lemma SeenValue(part: seq<Sighting>, whole: seq<Sighting>, field: nat, value: bytes)
    requires SeenIn(part, whole) && SawValue(part, field, value)
    ensures SawValue(whole, field, value)
  {
    var i :| 0 <= i < |part| && part[i].field == field && part[i].payload == Some(value);
    var j :| 0 <= j < |whole| && whole[j] == part[i];
  }

  /** Where the readings agree over a whole pool, no segment of it with an accepted strand is skipped. */
  lemma PruningIsSound(strands: seq<Strand>, i: nat, pool: seq<Sighting>, tracked: seq<string>, filter: FilterSize,
                       clauses: seq<Clause>, dicts: bool, env: Env)
    requires i < |strands| && WellHashed(strands[i], env) && Verifies(strands[i], clauses, env) && OnValues(clauses)
    requires SeenIn(Sightings(strands, env), pool)
    requires forall k :: 0 <= k < |clauses| ==> ReadsAgree(pool, clauses[k], env)
    ensures !Skips(strands, tracked, filter, clauses, dicts, env)
  {
    AcceptedIsSkippedIff(strands, i, tracked, filter, clauses, dicts, env);
    forall k | 0 <= k < |clauses| ensures !RangeRulesOut(Sightings(strands, env), tracked, clauses[k], env) {
      if RangeRulesOut(Sightings(strands, env), tracked, clauses[k], env) {
        RuledOutDisagrees(strands, i, pool, clauses, k, env);
      }
    }
  }

  lemma RuledOutDisagrees(strands: seq<Strand>, i: nat, pool: seq<Sighting>, clauses: seq<Clause>, k: nat, env: Env)
    requires i < |strands| && Verifies(strands[i], clauses, env) && k < |clauses| && clauses[k].RangeMatch?
    requires SeenIn(Sightings(strands, env), pool) && env.numeric(clauses[k].wire).Some?
    requires RuledOut(Sightings(strands, env), FieldHash(clauses[k].field, env), clauses[k].op,
                      env.numeric(clauses[k].wire).value, env)
    ensures !ReadsAgree(pool, clauses[k], env)
  {
    var c, ss := clauses[k], Sightings(strands, env);
    var f := FieldHash(c.field, env);
    AcceptedCarries(strands[i], clauses, k, env);
    var b :| Carries(strands[i], strands[i].introns, c.field, b) && ValueMatches(b, c, env);
    CarriedIsSeen(strands, i, c.field, b, env);
    var a := RefusedBeside(ss, f, b, c.op, c.wire, env);
    SeenValue(ss, pool, f, a);
    SeenValue(ss, pool, f, b);
  }

  /** What a segment that is ruled out accepts as bytes disagrees with one of its numbers. */
  lemma RefusedBeside(ss: seq<Sighting>, f: nat, accepted: bytes, op: RangeOp, wire: bytes, env: Env)
    returns (refused: bytes)
    requires env.numeric(wire).Some? && RuledOut(ss, f, op, env.numeric(wire).value, env)
    requires SawValue(ss, f, accepted) && RangeEval(accepted, op, wire)
    ensures SawValue(ss, f, refused) && Disagree(refused, accepted, op, wire, env)
  {
    var x: u64 :| SawNumber(ss, f, x, env);
    var j :| 0 <= j < |ss| && Reading(ss[j], f, env) == Some(x);
    refused := ss[j].payload.value;
    if env.numeric(accepted).Some? {
      SeenNumber(ss, f, accepted, env);
    }
  }

  lemma SeenNumber(ss: seq<Sighting>, field: nat, value: bytes, env: Env)
    requires SawValue(ss, field, value) && env.numeric(value).Some?
    ensures SawNumber(ss, field, env.numeric(value).value, env)
  {
    var i :| 0 <= i < |ss| && ss[i].field == field && ss[i].payload == Some(value);
    assert Reading(ss[i], field, env) == Some(env.numeric(value).value);
  }

  // ----- Segments drawn from a pool of payloads ------------------------------------------------

  /** Strands logged with these payloads. */
  function LoggedStrands(values: seq<bytes>, env: Env): (strands: seq<Strand>)
    ensures |strands| == |values|
    ensures forall i :: 0 <= i < |values| ==> strands[i] == StrandFromWalPayload(1, i + 1, values[i], env)
  {
    seq(|values|, i requires 0 <= i < |values| => StrandFromWalPayload(1, i + 1, values[i], env))
  }

  ghost predicate Recoverable(values: seq<bytes>) {
    forall i :: 0 <= i < |values| ==> |values[i]| <= RECOVERABLE
  }

  function PayloadSightings(values: seq<bytes>, env: Env): (ss: seq<Sighting>)
    ensures |ss| == |values|
    ensures forall i :: 0 <= i < |values| ==>
              ss[i] == Sighting(FieldHash(PAYLOAD, env), env.fnv(values[i]), Some(values[i]))
  {
    if values == [] then []
    else
      var n := |values| - 1;
      PayloadSightings(values[..n], env) + [Sighting(FieldHash(PAYLOAD, env), env.fnv(values[n]), Some(values[n]))]
  }

  lemma {:induction false} LoggedSightings(values: seq<bytes>, env: Env)
    requires Recoverable(values)
    ensures Sightings(LoggedStrands(values, env), env) == PayloadSightings(values, env)
    decreases |values|
  {
    if values == [] {
    } else {
      var n := |values| - 1;
      LoggedSightings(values[..n], env);
      OneSighting(n + 1, values[n], env);
      LastLogged(values, env);
    }
  }

  lemma LastLogged(values: seq<bytes>, env: Env)
    requires values != []
    ensures var n := |values| - 1;
            && LoggedStrands(values, env)[..n] == LoggedStrands(values[..n], env)
            && LoggedStrands(values, env)[n] == StrandFromWalPayload(1, n + 1, values[n], env)
  {
  }

  lemma OneSighting(sequence: nat, value: bytes, env: Env)
    requires |value| <= RECOVERABLE
    ensures var s := StrandFromWalPayload(1, sequence, value, env);
            SightingsOf(s, s.introns, env) == [Sighting(FieldHash(PAYLOAD, env), env.fnv(value), Some(value))]
  {
    var s := StrandFromWalPayload(1, sequence, value, env);
    PayloadWholeIff(1, sequence, value, env);
    assert s.introns[..0] == [] && SightingsOf(s, [], env) == [];
  }

  ghost predicate DrawnFrom(values: seq<bytes>, pool: set<bytes>) {
    forall i :: 0 <= i < |values| ==> values[i] in pool
  }

  /** The segment of these payloads is skipped although one of them is accepted. */
  ghost predicate Loses(values: seq<bytes>, op: RangeOp, wire: bytes, filter: FilterSize, env: Env) {
    && (exists i :: 0 <= i < |values| && RangeEval(values[i], op, wire))
    && Skips(LoggedStrands(values, env), [PAYLOAD], filter, [RangeMatch(PAYLOAD, op, wire)], true, env)
  }

  /**
   A range clause with a number, over segments of logged payloads drawn from a pool: no segment loses
   a strand that verification would accept iff no two payloads of the pool disagree.
   */
  lemma PoolLosesNothingIff(pool: set<bytes>, op: RangeOp, wire: bytes, filter: FilterSize, env: Env)
    requires env.numeric(wire).Some? && forall v :: v in pool ==> |v| <= RECOVERABLE
    ensures (forall values :: DrawnFrom(values, pool) ==> !Loses(values, op, wire, filter, env))
       <==> forall a, b :: a in pool && b in pool ==> !Disagree(a, b, op, wire, env)
  {
    if a, b :| a in pool && b in pool && Disagree(a, b, op, wire, env) {
      PairLoses(a, b, op, wire, filter, env);
      PairIsDrawn(a, b, pool);
    } else {
      forall values | DrawnFrom(values, pool) ensures !Loses(values, op, wire, filter, env) {
        AgreeingLosesNothing(values, pool, op, wire, filter, env);
      }
    }
  }

  lemma PairIsDrawn(a: bytes, b: bytes, pool: set<bytes>)
    requires a in pool && b in pool
    ensures DrawnFrom([a, b], pool)
  {
  }

  lemma PairLoses(a: bytes, b: bytes, op: RangeOp, wire: bytes, filter: FilterSize, env: Env)
    requires env.numeric(wire).Some? && |a| <= RECOVERABLE && |b| <= RECOVERABLE && Disagree(a, b, op, wire, env)
    ensures Loses([a, b], op, wire, filter, env)
  {
    PairIsSkipped(a, b, op, wire, filter, env);
    assert RangeEval([a, b][1], op, wire);
  }

  lemma AgreeingLosesNothing(values: seq<bytes>, pool: set<bytes>, op: RangeOp, wire: bytes, filter: FilterSize,
                             env: Env)
    requires env.numeric(wire).Some? && DrawnFrom(values, pool) && Recoverable(values)
    requires forall a, b :: a in pool && b in pool ==> !Disagree(a, b, op, wire, env)
    ensures !Loses(values, op, wire, filter, env)
  {
    if i :| 0 <= i < |values| && RangeEval(values[i], op, wire) {
      AgreeingIsKept(values, i, pool, op, wire, filter, env);
    }
  }

  lemma PairIsSkipped(a: bytes, b: bytes, op: RangeOp, wire: bytes, filter: FilterSize, env: Env)
    requires env.numeric(wire).Some? && |a| <= RECOVERABLE && |b| <= RECOVERABLE && Disagree(a, b, op, wire, env)
    ensures Skips(LoggedStrands([a, b], env), [PAYLOAD], filter, [RangeMatch(PAYLOAD, op, wire)], true, env)
  {
    assert Recoverable([a, b]);
    LoggedSightings([a, b], env);
    PayloadIsTracked(env);
    PairIsRuledOut(a, b, op, wire, env);
    OneClauseSkips(LoggedStrands([a, b], env), PayloadSightings([a, b], env), RangeMatch(PAYLOAD, op, wire), filter,
                   env);
  }

  lemma PairIsRuledOut(a: bytes, b: bytes, op: RangeOp, wire: bytes, env: Env)
    requires env.numeric(wire).Some? && Disagree(a, b, op, wire, env)
    ensures RuledOut(PayloadSightings([a, b], env), FieldHash(PAYLOAD, env), op, env.numeric(wire).value, env)
  {
    var ss, f := PayloadSightings([a, b], env), FieldHash(PAYLOAD, env);
    assert Reading(ss[0], f, env) == env.numeric(a) && Reading(ss[1], f, env) == env.numeric(b);
    assert SawNumber(ss, f, env.numeric(a).value, env);
  }

  lemma PayloadIsTracked(env: Env)
    ensures FieldHash(PAYLOAD, env) in TrackedHashes([PAYLOAD], env)
  {
    assert FieldHash([PAYLOAD][0], env) == FieldHash(PAYLOAD, env);
  }

  lemma AgreeingIsKept(values: seq<bytes>, i: nat, pool: set<bytes>, op: RangeOp, wire: bytes, filter: FilterSize,
                       env: Env)
    requires env.numeric(wire).Some? && i < |values| && DrawnFrom(values, pool) && Recoverable(values)
    requires forall a, b :: a in pool && b in pool ==> !Disagree(a, b, op, wire, env)
    requires RangeEval(values[i], op, wire)
    ensures !Skips(LoggedStrands(values, env), [PAYLOAD], filter, [RangeMatch(PAYLOAD, op, wire)], true, env)
  {
    var c, strands := RangeMatch(PAYLOAD, op, wire), LoggedStrands(values, env);
    LoggedSightings(values, env);
    DrawnReadsAgree(values, pool, op, wire, env);
    LoggedAccepted(values, i, c, env);
    OneClauseKeeps(strands, i, PayloadSightings(values, env), c, filter, env);
  }

  lemma OneClauseKeeps(strands: seq<Strand>, i: nat, ss: seq<Sighting>, c: Clause, filter: FilterSize, env: Env)
    requires i < |strands| && Sightings(strands, env) == ss && Verifies(strands[i], [c], env)
    requires WellHashed(strands[i], env)
    requires c.RangeMatch? && ReadsAgree(ss, c, env)
    ensures !Skips(strands, [PAYLOAD], filter, [c], true, env)
  {
    PruningIsSound(strands, i, ss, [PAYLOAD], filter, [c], true, env);
  }

  lemma OneClauseSkips(strands: seq<Strand>, ss: seq<Sighting>, c: Clause, filter: FilterSize, env: Env)
    requires Sightings(strands, env) == ss && RangeRulesOut(ss, [PAYLOAD], c, env)
    ensures Skips(strands, [PAYLOAD], filter, [c], true, env)
  {
    assert SkipsClause(ss, [PAYLOAD], filter, [c][0], true, env);
  }

  lemma LoggedAccepted(values: seq<bytes>, i: nat, c: Clause, env: Env)
    requires i < |values| && |values[i]| <= RECOVERABLE && c.field == PAYLOAD && ValueMatches(values[i], c, env)
    ensures Verifies(LoggedStrands(values, env)[i], [c], env) && WellHashed(LoggedStrands(values, env)[i], env)
  {
    assert Recovered(values[i]) == values[i];
    PayloadVerifiesIff(1, i + 1, values[i], c, env);
    WalStrandWellHashedIff(1, i + 1, values[i], env);
  }

  lemma DrawnReadsAgree(values: seq<bytes>, pool: set<bytes>, op: RangeOp, wire: bytes, env: Env)
    requires env.numeric(wire).Some? && DrawnFrom(values, pool)
    requires forall a, b :: a in pool && b in pool ==> !Disagree(a, b, op, wire, env)
    ensures ReadsAgree(PayloadSightings(values, env), RangeMatch(PAYLOAD, op, wire), env)
  {
    forall v | SawValue(PayloadSightings(values, env), FieldHash(PAYLOAD, env), v) ensures v in pool {
      SawDrawn(values, pool, v, env);
    }
  }

  lemma SawDrawn(values: seq<bytes>, pool: set<bytes>, v: bytes, env: Env)
    requires DrawnFrom(values, pool) && SawValue(PayloadSightings(values, env), FieldHash(PAYLOAD, env), v)
    ensures v in pool
  {
    var ss := PayloadSightings(values, env);
    var j :| 0 <= j < |ss| && ss[j].field == FieldHash(PAYLOAD, env) && ss[j].payload == Some(v);
    assert values[j] == v;
  }

  /** A number may be refused and accepted at once: 9 is not above 10, but `"9"` is above `"10"`. */
  lemma NumericRangePruningLoses(filter: FilterSize, env: Env)
    requires env.numeric(Utf8("9")) == Some(9) && env.numeric(Utf8("10")) == Some(10)
    ensures var strands := LoggedStrands([Utf8("9"), Utf8("9")], env);
            var clauses := [RangeMatch(PAYLOAD, GreaterThan, Utf8("10"))];
            Verifies(strands[0], clauses, env) && Skips(strands, [PAYLOAD], filter, clauses, true, env)
  {
    var nine, ten := Utf8("9"), Utf8("10");
    assert nine == Utf8Char('9') + Utf8("9"[1..]) && ten == Utf8Char('1') + Utf8("10"[1..]);
    assert ten[1..] == Utf8("0") == Utf8Char('0') + Utf8("0"[1..]);
    assert LexLess(ten, nine);
    PairIsSkipped(nine, nine, GreaterThan, ten, filter, env);
    PayloadVerifiesIff(1, 1, nine, RangeMatch(PAYLOAD, GreaterThan, ten), env);
  }
}
