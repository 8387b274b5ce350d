/**
 The secondary indexes of a collection, kept up record by record as commits arrive and rebuilt
 from the visible records on demand.
 */
module Indexes {
  import opened Wrappers
  import opened Json
  import opened Transactions
  import opened SortRuns
  import opened Ordering
  import JsonText
  import Trigrams

  // ----- Inverted indexes: (field, key) -> ids, and back -------------------------------------

  type Pair = (string, string)

  /** `ids` is the posting lists; `pairs` remembers where each record was filed. */
  datatype Inverted = Inverted(ids: map<string, map<string, set<nat>>>, pairs: map<nat, seq<Pair>>)

  const NO_POSTINGS := Inverted(map[], map[])

  function IdsAt(ids: map<string, map<string, set<nat>>>, p: Pair): set<nat> {
    if p.0 in ids && p.1 in ids[p.0] then ids[p.0][p.1] else {}
  }

  /** `entry(field).or_default().entry(key).or_default().insert(id)`. */
  function Filed(ids: map<string, map<string, set<nat>>>, p: Pair, id: nat): (r: map<string, map<string, set<nat>>>)
    ensures forall q :: IdsAt(r, q) == if q == p then IdsAt(ids, p) + {id} else IdsAt(ids, q)
  {
    ids[p.0 := (if p.0 in ids then ids[p.0] else map[])[p.1 := IdsAt(ids, p) + {id}]]
  }

  /** Removes the id from a posting list that exists; the list stays, even when empty. */
  function Unfiled(ids: map<string, map<string, set<nat>>>, p: Pair, id: nat): (r: map<string, map<string, set<nat>>>)
    ensures forall q :: IdsAt(r, q) == if q == p then IdsAt(ids, p) - {id} else IdsAt(ids, q)
  {
    if p.0 in ids && p.1 in ids[p.0] then ids[p.0 := ids[p.0][p.1 := ids[p.0][p.1] - {id}]] else ids
  }

  ghost predicate Wanted(want: map<nat, set<Pair>>, id: nat, p: Pair) {
    id in want && p in want[id]
  }

  /** Every record is filed under exactly its pairs, and can be found again to be unfiled. */
  ghost predicate Files(inv: Inverted, want: map<nat, set<Pair>>) {
    && (forall p, id :: id in IdsAt(inv.ids, p) <==> Wanted(want, id, p))
    && (forall id, p :: Wanted(want, id, p) ==> id in inv.pairs && p in inv.pairs[id])
  }

  method Unfile(inv: Inverted, id: nat, ghost want: map<nat, set<Pair>>) returns (r: Inverted)
    requires Files(inv, want)
    ensures Files(r, want - {id}) && r.ids.Keys == inv.ids.Keys
  {
    if id !in inv.pairs {
      assert forall p :: !Wanted(want, id, p);
      return inv;
    }
    var items := inv.pairs[id];
    var ids := inv.ids;
    for i := 0 to |items|
      invariant ids.Keys == inv.ids.Keys
      invariant forall p :: IdsAt(ids, p) == if p in items[..i] then IdsAt(inv.ids, p) - {id} else IdsAt(inv.ids, p)
    {
      ids := Unfiled(ids, items[i], id);
    }
    assert items[..|items|] == items;
    r := Inverted(ids, inv.pairs - {id});
  }

  /** Two inverted indexes that file the same records have the same non-empty posting lists. */
  lemma FilesDetermine(a: Inverted, b: Inverted, want: map<nat, set<Pair>>, p: Pair)
    requires Files(a, want) && Files(b, want)
    ensures IdsAt(a.ids, p) == IdsAt(b.ids, p)
  {
    forall id ensures id in IdsAt(a.ids, p) <==> id in IdsAt(b.ids, p) {
    }
  }

  // ----- Composite indexes: filter bucket, then sort key -------------------------------------

  datatype CompositeRun = CompositeRun(buckets: map<string, set<Entry>>, values: map<nat, (string, int)>)

  const EMPTY_COMPOSITE := CompositeRun(map[], map[])

  function Bucket(run: CompositeRun, key: string): set<Entry> {
    if key in run.buckets then run.buckets[key] else {}
  }

  function CompositeIndexed(run: CompositeRun, id: nat, at: (string, int)): CompositeRun {
    CompositeRun(run.buckets[at.0 := Bucket(run, at.0) + {Entry(at.1, id)}], run.values[id := at])
  }

  function CompositeDeindexed(run: CompositeRun, id: nat): CompositeRun {
    if id !in run.values then run
    else
      var (key, sortKey) := run.values[id];
      CompositeRun(
        if key in run.buckets then run.buckets[key := run.buckets[key] - {Entry(sortKey, id)}] else run.buckets,
        run.values - {id})
  }

  ghost predicate CompositeMirrors(run: CompositeRun, want: map<nat, (string, int)>) {
    && run.values == want
    && forall key, e :: e in Bucket(run, key) <==> e.recordId in want && want[e.recordId] == (key, e.key)
  }

  lemma CompositeDeindexedMirrors(run: CompositeRun, want: map<nat, (string, int)>, id: nat)
    requires CompositeMirrors(run, want)
    ensures CompositeMirrors(CompositeDeindexed(run, id), want - {id})
  {
    var run' := CompositeDeindexed(run, id);
    if id in want {
      var (key, sortKey) := want[id];
      assert Entry(sortKey, id) in Bucket(run, key);
      forall k, e ensures e in Bucket(run', k) <==> e in Bucket(run, k) && e.recordId != id {
      }
    } else {
      assert want - {id} == want;
    }
  }

  lemma CompositeIndexedMirrors(run: CompositeRun, want: map<nat, (string, int)>, id: nat, at: (string, int))
    requires CompositeMirrors(run, want) && id !in want
    ensures CompositeMirrors(CompositeIndexed(run, id, at), want[id := at])
  {
    var run' := CompositeIndexed(run, id, at);
    forall k, e ensures e in Bucket(run', k) <==> e in Bucket(run, k) || (k == at.0 && e == Entry(at.1, id)) {
    }
  }

  // ----- What each index must hold for a record ---------------------------------------------

  /** The text of a value agrees with `JsonText` on strings, and is its own business otherwise. */
  ghost predicate WritesStrings(toJson: Value -> string) {
    forall s :: toJson(String(s)) == JsonText.ValueKey(s)
  }

  function KeysOf(view: map<nat, Record>, field: string): map<nat, int> {
    map id | id in view && FieldSortKey(view[id], field).Some? :: FieldSortKey(view[id], field).value
  }

  /** `to_json` is the canonical text of a value; the exact index files string fields only. */
  function ExactPairs(r: Record, fields: set<string>, toJson: Value -> string): set<Pair> {
    set f | f in r && f in fields && r[f].String? :: (f, toJson(r[f]))
  }

  ghost function GramPairs(r: Record, fields: set<string>): set<Pair> {
    set f, g | f in r && f in fields && r[f].String? && g in Trigrams.Grams(r[f].s) :: (f, g)
  }

  function CompositeKey(r: Record, def: Pair, toJson: Value -> string): Option<(string, int)> {
    if def.0 in r && FieldSortKey(r, def.1).Some? then Some((toJson(r[def.0]), FieldSortKey(r, def.1).value)) else None
  }

  function CompositeKeysOf(view: map<nat, Record>, def: Pair, toJson: Value -> string): map<nat, (string, int)> {
    map id | id in view && CompositeKey(view[id], def, toJson).Some? :: CompositeKey(view[id], def, toJson).value
  }

  ghost function ExactOf(view: map<nat, Record>, fields: set<string>, toJson: Value -> string): map<nat, set<Pair>> {
    map id | id in view :: ExactPairs(view[id], fields, toJson)
  }

  ghost function GramsOf(view: map<nat, Record>, fields: set<string>): map<nat, set<Pair>> {
    map id | id in view :: GramPairs(view[id], fields)
  }

  // ----- Upkeep ------------------------------------------------------------------------------

  ghost predicate Adds(before: map<string, map<string, set<nat>>>, after: map<string, map<string, set<nat>>>,
                       items: seq<Pair>, id: nat) {
    forall p :: IdsAt(after, p) == if p in items then IdsAt(before, p) + {id} else IdsAt(before, p)
  }

  function Remembered(inv: Inverted, ids: map<string, map<string, set<nat>>>, id: nat, items: seq<Pair>): Inverted {
    Inverted(ids, if items == [] then inv.pairs else inv.pairs[id := items])
  }

  lemma FiledRecord(inv: Inverted, want: map<nat, set<Pair>>, id: nat, ids: map<string, map<string, set<nat>>>,
                    items: seq<Pair>, pairs: set<Pair>)
    requires Files(inv, want) && id !in want
    requires Adds(inv.ids, ids, items, id) && forall p :: p in items <==> p in pairs
    ensures Files(Remembered(inv, ids, id, items), want[id := pairs])
  {
    var want' := want[id := pairs];
    forall p, k ensures k in IdsAt(ids, p) <==> Wanted(want', k, p) {
      assert k in IdsAt(inv.ids, p) <==> Wanted(want, k, p);
    }
    forall k, p | Wanted(want', k, p)
      ensures var r := Remembered(inv, ids, id, items); k in r.pairs && p in r.pairs[k] {
      if k != id { assert Wanted(want, k, p); }
    }
  }

  /** One sort field of a record that enters the view. */
  lemma FieldIndexed(run: SortRun, view: map<nat, Record>, field: string, id: nat, record: Record)
    requires Mirrors(run, KeysOf(view, field)) && id !in view
    ensures var key := FieldSortKey(record, field);
            Mirrors(if key.Some? then Indexed(run, id, key.value) else run, KeysOf(view[id := record], field))
  {
    var key := FieldSortKey(record, field);
    if key.Some? {
      IndexedMirrors(run, KeysOf(view, field), id, key.value);
      assert KeysOf(view, field)[id := key.value] == KeysOf(view[id := record], field);
    } else {
      assert KeysOf(view, field) == KeysOf(view[id := record], field);
    }
  }

  lemma FieldDeindexed(run: SortRun, view: map<nat, Record>, field: string, id: nat)
    requires Mirrors(run, KeysOf(view, field))
    ensures Mirrors(Deindexed(run, id), KeysOf(view - {id}, field))
  {
    DeindexedMirrors(run, KeysOf(view, field), id);
    assert KeysOf(view, field) - {id} == KeysOf(view - {id}, field);
  }

  /** One composite definition of a record that enters the view. */
  lemma DefIndexed(run: CompositeRun, view: map<nat, Record>, def: Pair, toJson: Value -> string, id: nat,
                   record: Record)
    requires CompositeMirrors(run, CompositeKeysOf(view, def, toJson)) && id !in view
    ensures var at := CompositeKey(record, def, toJson);
            CompositeMirrors(if at.Some? then CompositeIndexed(run, id, at.value) else run,
                             CompositeKeysOf(view[id := record], def, toJson))
  {
    var at := CompositeKey(record, def, toJson);
    if at.Some? {
      CompositeIndexedMirrors(run, CompositeKeysOf(view, def, toJson), id, at.value);
      assert CompositeKeysOf(view, def, toJson)[id := at.value] == CompositeKeysOf(view[id := record], def, toJson);
    } else {
      assert CompositeKeysOf(view, def, toJson) == CompositeKeysOf(view[id := record], def, toJson);
    }
  }

  lemma DefDeindexed(run: CompositeRun, view: map<nat, Record>, def: Pair, toJson: Value -> string, id: nat)
    requires CompositeMirrors(run, CompositeKeysOf(view, def, toJson))
    ensures CompositeMirrors(CompositeDeindexed(run, id), CompositeKeysOf(view - {id}, def, toJson))
  {
    CompositeDeindexedMirrors(run, CompositeKeysOf(view, def, toJson), id);
    assert CompositeKeysOf(view, def, toJson) - {id} == CompositeKeysOf(view - {id}, def, toJson);
  }

  lemma StringsOfLarger(view: map<nat, Record>, fields: set<string>, toJson: Value -> string, id: nat, record: Record)
    ensures ExactOf(view, fields, toJson)[id := ExactPairs(record, fields, toJson)]
         == ExactOf(view[id := record], fields, toJson)
    ensures GramsOf(view, fields)[id := GramPairs(record, fields)] == GramsOf(view[id := record], fields)
  {
  }

  lemma StringsOfSmaller(view: map<nat, Record>, fields: set<string>, toJson: Value -> string, id: nat)
    ensures ExactOf(view, fields, toJson) - {id} == ExactOf(view - {id}, fields, toJson)
    ensures GramsOf(view, fields) - {id} == GramsOf(view - {id}, fields)
  {
  }

  function RunIn(runs: map<string, SortRun>, field: string): SortRun {
    if field in runs then runs[field] else EMPTY_RUN
  }

  ghost predicate RunsMirror(runs: map<string, SortRun>, fields: set<string>, view: map<nat, Record>) {
    forall f :: f in fields ==> Mirrors(RunIn(runs, f), KeysOf(view, f))
  }

  /** One field moves over from the old view to the new one. */
  lemma RunMovesOver(runs: map<string, SortRun>, runs': map<string, SortRun>, field: string, todo: set<string>,
                     done: set<string>, view: map<nat, Record>, view': map<nat, Record>)
    requires RunsMirror(runs, todo, view) && RunsMirror(runs, done, view') && field !in done
    requires forall f :: f != field ==> RunIn(runs', f) == RunIn(runs, f)
    requires Mirrors(RunIn(runs', field), KeysOf(view', field))
    ensures RunsMirror(runs', todo - {field}, view) && RunsMirror(runs', done + {field}, view')
  {
  }

  class SecondaryIndexes {
    const toJson: Value -> string
    var sortFields: set<string>
    var compositeDefs: set<Pair>
    var exactFields: set<string>
    var sortRuns: map<string, SortRun>
    var exact: Inverted
    var trigrams: Inverted
    var composites: map<Pair, CompositeRun>

    constructor (toJson: Value -> string, sortFields: set<string>, compositeDefs: set<Pair>, exactFields: set<string>)
      ensures Mirror(map[]) && this.toJson == toJson
    {
      this.toJson := toJson;
      this.sortFields, this.compositeDefs, this.exactFields := sortFields, compositeDefs, exactFields;
      sortRuns, exact, trigrams, composites := map[], NO_POSTINGS, NO_POSTINGS, map[];
    }

    function RunOf(field: string): SortRun
      reads this`sortRuns
    {
      RunIn(sortRuns, field)
    }

    function CompositeOf(def: Pair): CompositeRun
      reads this`composites
    {
      if def in composites then composites[def] else EMPTY_COMPOSITE
    }

    ghost predicate SortsMirror(view: map<nat, Record>)
      reads this`sortRuns, this`sortFields
    {
      && RunsMirror(sortRuns, sortFields, view)
      && (forall f :: f !in sortFields ==> RunOf(f) == EMPTY_RUN)
    }

    ghost predicate CompositesMirror(view: map<nat, Record>)
      reads this`composites, this`compositeDefs
    {
      && composites.Keys <= compositeDefs
      && forall d :: d in compositeDefs ==> CompositeMirrors(CompositeOf(d), CompositeKeysOf(view, d, toJson))
    }

    ghost predicate StringsMirror(view: map<nat, Record>)
      reads this`exact, this`trigrams, this`exactFields
    {
      && exact.ids.Keys <= exactFields && trigrams.ids.Keys <= exactFields
      && Files(exact, ExactOf(view, exactFields, toJson)) && Files(trigrams, GramsOf(view, exactFields))
    }

    /** Every index holds exactly what a rebuild from these records would file. */
    ghost predicate Mirror(view: map<nat, Record>)
      reads this
    {
      SortsMirror(view) && CompositesMirror(view) && StringsMirror(view)
    }

    method DeindexRecord(id: nat, ghost view: map<nat, Record>)
      requires Mirror(view)
      modifies this`sortRuns, this`exact, this`trigrams, this`composites
      ensures Mirror(view - {id})
    {
      DeindexSorts(id, view);
      exact := Unfile(exact, id, ExactOf(view, exactFields, toJson));
      trigrams := Unfile(trigrams, id, GramsOf(view, exactFields));
      StringsOfSmaller(view, exactFields, toJson, id);
      DeindexComposites(id, view);
    }

    method DeindexSorts(id: nat, ghost view: map<nat, Record>)
      requires SortsMirror(view)
      modifies this`sortRuns
      ensures SortsMirror(view - {id})
    {
      var todo := sortFields;
      ghost var done := {};
      while todo != {}
        invariant todo <= sortFields && done == sortFields - todo
        invariant RunsMirror(sortRuns, todo, view) && RunsMirror(sortRuns, done, view - {id})
        invariant forall f :: f !in sortFields ==> RunOf(f) == EMPTY_RUN
      {
        var field :| field in todo;
        ghost var before := sortRuns;
        FieldDeindexed(RunOf(field), view, field, id);
        sortRuns := sortRuns[field := Deindexed(RunOf(field), id)];
        RunMovesOver(before, sortRuns, field, todo, done, view, view - {id});
        todo, done := todo - {field}, done + {field};
      }
      assert done == sortFields;
    }

    method DeindexComposites(id: nat, ghost view: map<nat, Record>)
      requires CompositesMirror(view)
      modifies this`composites
      ensures CompositesMirror(view - {id})
    {
      var todo := compositeDefs;
      while todo != {}
        invariant todo <= compositeDefs && composites.Keys <= compositeDefs
        invariant forall d :: d in compositeDefs ==>
                    CompositeMirrors(CompositeOf(d),
                                     CompositeKeysOf(if d in todo then view else view - {id}, d, toJson))
      {
        var def :| def in todo;
        DefDeindexed(CompositeOf(def), view, def, toJson, id);
        composites := composites[def := CompositeDeindexed(CompositeOf(def), id)];
        todo := todo - {def};
      }
    }

    method IndexRecordValues(id: nat, record: Record, ghost view: map<nat, Record>)
      requires Mirror(view) && id !in view
      modifies this`sortRuns, this`exact, this`trigrams, this`composites
      ensures Mirror(view[id := record])
    {
      IndexSorts(id, record, view);
      IndexExactAndCompositeOnly(id, record, view);
    }

    method IndexSorts(id: nat, record: Record, ghost view: map<nat, Record>)
      requires SortsMirror(view) && id !in view
      modifies this`sortRuns
      ensures SortsMirror(view[id := record])
    {
      ghost var view' := view[id := record];
      var todo := sortFields;
      ghost var done := {};
      while todo != {}
        invariant todo <= sortFields && done == sortFields - todo
        invariant RunsMirror(sortRuns, todo, view) && RunsMirror(sortRuns, done, view')
        invariant forall f :: f !in sortFields ==> RunOf(f) == EMPTY_RUN
      {
        var field :| field in todo;
        var key := FieldSortKey(record, field);
        ghost var before := sortRuns;
        FieldIndexed(RunOf(field), view, field, id, record);
        if key.Some? {
          sortRuns := sortRuns[field := Indexed(RunOf(field), id, key.value)];
        }
        RunMovesOver(before, sortRuns, field, todo, done, view, view');
        todo, done := todo - {field}, done + {field};
      }
      assert done == sortFields;
    }

    /** Shared by incremental upkeep and the rebuild. */
    method IndexExactAndCompositeOnly(id: nat, record: Record, ghost view: map<nat, Record>)
      requires StringsMirror(view) && CompositesMirror(view) && id !in view
      modifies this`exact, this`trigrams, this`composites
      ensures StringsMirror(view[id := record]) && CompositesMirror(view[id := record])
    {
      var exactIds, gramIds, exactItems, gramItems := FileStrings(id, record);
      FiledRecord(exact, ExactOf(view, exactFields, toJson), id, exactIds, exactItems,
                  ExactPairs(record, exactFields, toJson));
      FiledRecord(trigrams, GramsOf(view, exactFields), id, gramIds, gramItems, GramPairs(record, exactFields));
      exact := Remembered(exact, exactIds, id, exactItems);
      trigrams := Remembered(trigrams, gramIds, id, gramItems);
      StringsOfLarger(view, exactFields, toJson, id, record);
      IndexComposites(id, record, view);
    }

    /** The loop over the record's fields. */
    method FileStrings(id: nat, record: Record)
      returns (exactIds: map<string, map<string, set<nat>>>, gramIds: map<string, map<string, set<nat>>>,
               exactItems: seq<Pair>, gramItems: seq<Pair>)
      ensures Adds(exact.ids, exactIds, exactItems, id) && Adds(trigrams.ids, gramIds, gramItems, id)
      ensures exactIds.Keys <= exact.ids.Keys + exactFields && gramIds.Keys <= trigrams.ids.Keys + exactFields
      ensures forall p :: p in exactItems <==> p in ExactPairs(record, exactFields, toJson)
      ensures forall p :: p in gramItems <==> p in GramPairs(record, exactFields)
    {
      exactIds, gramIds, exactItems, gramItems := exact.ids, trigrams.ids, [], [];
      var todo := record.Keys;
      while todo != {}
        invariant todo <= record.Keys
        invariant Adds(exact.ids, exactIds, exactItems, id) && Adds(trigrams.ids, gramIds, gramItems, id)
        invariant exactIds.Keys <= exact.ids.Keys + exactFields && gramIds.Keys <= trigrams.ids.Keys + exactFields
        invariant forall p :: p in exactItems <==> p in ExactPairs(record, exactFields - todo, toJson)
        invariant forall p :: p in gramItems <==> p in GramPairs(record, exactFields - todo)
      {
        var field :| field in todo;
        if record[field].String? && field in exactFields {
          var key := toJson(record[field]);
          exactIds, exactItems := Filed(exactIds, (field, key), id), exactItems + [(field, key)];
          var grams := Trigrams.TrigramsForText(record[field].s);
          gramIds, gramItems := FileGrams(trigrams.ids, gramIds, gramItems, field, grams, id);
        }
        todo := todo - {field};
      }
      assert exactFields - todo == exactFields;
    }

    static method FileGrams(ghost before: map<string, map<string, set<nat>>>, ids: map<string, map<string, set<nat>>>,
                            items: seq<Pair>, field: string, grams: set<string>, id: nat)
      returns (ids': map<string, map<string, set<nat>>>, items': seq<Pair>)
      requires Adds(before, ids, items, id)
      ensures Adds(before, ids', items', id) && ids'.Keys <= ids.Keys + {field}
      ensures forall p :: p in items' <==> p in items || (p.0 == field && p.1 in grams)
    {
      ids', items' := ids, items;
      var todo := grams;
      while todo != {}
        invariant todo <= grams
        invariant Adds(before, ids', items', id) && ids'.Keys <= ids.Keys + {field}
        invariant forall p :: p in items' <==> p in items || (p.0 == field && p.1 in grams - todo)
      {
        var gram :| gram in todo;
        ids', items' := Filed(ids', (field, gram), id), items' + [(field, gram)];
        todo := todo - {gram};
      }
    }

    method IndexComposites(id: nat, record: Record, ghost view: map<nat, Record>)
      requires CompositesMirror(view) && id !in view
      modifies this`composites
      ensures CompositesMirror(view[id := record])
    {
      ghost var view' := view[id := record];
      var todo := compositeDefs;
      while todo != {}
        invariant todo <= compositeDefs && composites.Keys <= compositeDefs
        invariant forall d :: d in compositeDefs ==>
                    CompositeMirrors(CompositeOf(d), CompositeKeysOf(if d in todo then view else view', d, toJson))
      {
        var def :| def in todo;
        var at := CompositeKey(record, def, toJson);
        DefIndexed(CompositeOf(def), view, def, toJson, id, record);
        if at.Some? {
          composites := composites[def := CompositeIndexed(CompositeOf(def), id, at.value)];
        }
        todo := todo - {def};
      }
    }

    /** A committed write set, applied to the indexes in order. */
    method ApplyWrites(ops: seq<WriteOp>, ghost view: map<nat, Record>)
      requires Mirror(view)
      modifies this`sortRuns, this`exact, this`trigrams, this`composites
      ensures Mirror(ApplyAll(view, ops))
    {
      for i := 0 to |ops|
        invariant Mirror(ApplyAll(view, ops[..i]))
      {
        assert ops[..i + 1][..i] == ops[..i];
        ApplyWrite(ops[i], ApplyAll(view, ops[..i]));
      }
      assert ops[..|ops|] == ops;
    }

    method ApplyWrite(op: WriteOp, ghost view: map<nat, Record>)
      requires Mirror(view)
      modifies this`sortRuns, this`exact, this`trigrams, this`composites
      ensures Mirror(Apply(view, op))
    {
      DeindexRecord(op.recordId, view);
      if op.Upsert? {
        IndexRecordValues(op.recordId, op.record, view - {op.recordId});
        assert (view - {op.recordId})[op.recordId := op.record] == view[op.recordId := op.record];
      }
    }

    method Rebuild(visible: map<nat, Record>)
      modifies this`sortRuns, this`exact, this`trigrams, this`composites
      ensures Mirror(visible)
      ensures forall f :: f in sortFields ==> Sealed(RunOf(f), KeysOf(visible, f))
    {
      sortRuns, exact, trigrams, composites := map[], NO_POSTINGS, NO_POSTINGS, map[];
      SealSorts(visible);
      RebuildStringsAndComposites(visible);
      forall f | f in sortFields ensures Mirrors(RunOf(f), KeysOf(visible, f)) {
        SealedMirrors(RunOf(f), KeysOf(visible, f));
      }
    }

    method RebuildStringsAndComposites(visible: map<nat, Record>)
      requires StringsMirror(map[]) && CompositesMirror(map[])
      modifies this`exact, this`trigrams, this`composites
      ensures StringsMirror(visible) && CompositesMirror(visible)
    {
      ghost var done: map<nat, Record> := map[];
      var todo := visible.Keys;
      while todo != {}
        invariant todo <= visible.Keys
        invariant done == map id | id in visible && id !in todo :: visible[id]
        invariant StringsMirror(done) && CompositesMirror(done)
      {
        var id :| id in todo;
        IndexExactAndCompositeOnly(id, visible[id], done);
        done := done[id := visible[id]];
        todo := todo - {id};
      }
      assert done == visible;
    }

    method SealSorts(visible: map<nat, Record>)
      requires sortRuns == map[]
      modifies this`sortRuns
      ensures forall f :: f in sortFields ==> Sealed(RunOf(f), KeysOf(visible, f))
      ensures forall f :: f !in sortFields ==> RunOf(f) == EMPTY_RUN
    {
      var todo := sortFields;
      while todo != {}
        invariant todo <= sortFields
        invariant forall f :: f in sortFields - todo ==> Sealed(RunOf(f), KeysOf(visible, f))
        invariant forall f :: f !in sortFields ==> RunOf(f) == EMPTY_RUN
      {
        var field :| field in todo;
        var values := KeysOf(visible, field);
        var entries := set id | id in values :: Entry(values[id], id);
        var sealed := InOrder(entries, Asc);
        assert entries == EntriesOf(values);
        sortRuns := sortRuns[field := SortRun(sealed, {}, {}, values)];
        todo := todo - {field};
      }
    }

    /** Changing the configuration rebuilds everything. */
    method Configure(sortFields: set<string>, compositeDefs: set<Pair>, exactFields: set<string>,
                     visible: map<nat, Record>)
      modifies this
      ensures Mirror(visible)
      ensures this.sortFields == sortFields && this.compositeDefs == compositeDefs && this.exactFields == exactFields
    {
      this.sortFields, this.compositeDefs, this.exactFields := sortFields, compositeDefs, exactFields;
      Rebuild(visible);
    }
  }
}
