/** Overlay policies: inheritance with cycle detection, field visibility, and masking. */
module Overlays {
  import opened Wrappers
  import opened Json

  datatype Access = Full | Partial

  datatype Mutation = Read | Write | Delete

  datatype Definition = Definition(name: string, access: Access, collections: seq<string>,
                                   includeFields: map<string, seq<string>>, excludeFields: map<string, seq<string>>,
                                   mutations: seq<Mutation>, parent: Option<string>,
                                   additionallyInclude: map<string, seq<string>>)

  type FieldMap = map<string, set<string>>

  datatype Resolved = Resolved(name: string, access: Access, collections: set<string>,
                               includeFields: FieldMap, excludeFields: FieldMap, mutations: set<Mutation>)
  {
    predicate CanAccessCollection(collection: string) {
      "*" in collections || collection in collections
    }

    predicate IsFieldVisible(collection: string, field: string) {
      if !CanAccessCollection(collection) then false
      else if access == Full then true
      else if collection in excludeFields && field in excludeFields[collection] then false
      else collection in includeFields && field in includeFields[collection]
    }
  }

  datatype OverlayError =
    | OverlayNotFound(name: string)
    | UnresolvedParent(name: string, parent: string)
    | InheritanceCycle(name: string)

  // ----- Merging ----------------------------------------------------------------------------

  function Elements<T>(q: seq<T>): set<T> {
    set x | x in q
  }

  function FieldsOf(m: FieldMap, collection: string): set<string> {
    if collection in m then m[collection] else {}
  }

  function Added(source: map<string, seq<string>>, collection: string): set<string> {
    if collection in source then Elements(source[collection]) else {}
  }

  function Merged(target: FieldMap, source: map<string, seq<string>>): FieldMap {
    map c | c in target.Keys + source.Keys :: FieldsOf(target, c) + Added(source, c)
  }

  /** Everything but the collections in `todo` has been merged in. */
  ghost predicate IsMerge(m: FieldMap, target: FieldMap, source: map<string, seq<string>>, todo: set<string>) {
    && m.Keys == target.Keys + (source.Keys - todo)
    && forall c :: FieldsOf(m, c) == if c in todo then FieldsOf(target, c) else FieldsOf(target, c) + Added(source, c)
  }

  lemma MergeStep(m: FieldMap, target: FieldMap, source: map<string, seq<string>>, todo: set<string>,
                  collection: string)
    requires IsMerge(m, target, source, todo) && collection in todo && todo <= source.Keys
    ensures IsMerge(m[collection := FieldsOf(m, collection) + Elements(source[collection])], target, source,
                    todo - {collection})
  {
  }

  lemma MergedFields(target: FieldMap, source: map<string, seq<string>>, collection: string)
    ensures FieldsOf(Merged(target, source), collection) == FieldsOf(target, collection) + Added(source, collection)
  {
  }

  lemma MergeUnique(m: FieldMap, target: FieldMap, source: map<string, seq<string>>)
    requires IsMerge(m, target, source, {})
    ensures m == Merged(target, source)
  {
    forall c | c in m ensures m[c] == Merged(target, source)[c] {
      assert m[c] == FieldsOf(m, c);
    }
  }

  method MergeFieldMap(target: FieldMap, source: map<string, seq<string>>) returns (m: FieldMap)
    ensures m == Merged(target, source)
  {
    m := target;
    var todo := source.Keys;
    while todo != {}
      invariant todo <= source.Keys && IsMerge(m, target, source, todo)
    {
      var collection :| collection in todo;
      MergeStep(m, target, source, todo, collection);
      m := m[collection := FieldsOf(m, collection) + Elements(source[collection])];
      todo := todo - {collection};
    }
    MergeUnique(m, target, source);
  }

  function Root(d: Definition): Resolved {
    Resolved(d.name, d.access, {}, map[], map[], {})
  }

  /** A definition on top of its resolved parent. */
  function Extended(base: Resolved, d: Definition): Resolved {
    Resolved(d.name, d.access, base.collections + Elements(d.collections),
             Merged(Merged(base.includeFields, d.includeFields), d.additionallyInclude),
             Merged(base.excludeFields, d.excludeFields),
             base.mutations + Elements(d.mutations))
  }

  // ----- Trails -----------------------------------------------------------------------------

  type Registry = map<string, Definition>

  /** Each name is defined and extends the next. */
  ghost predicate Linked(defs: Registry, trail: seq<string>) {
    && (forall k :: 0 <= k < |trail| ==> trail[k] in defs)
    && (forall k :: 0 <= k < |trail| - 1 ==> defs[trail[k]].parent == Some(trail[k + 1]))
  }

  ghost predicate Distinct(trail: seq<string>) {
    forall j, k :: 0 <= j < k < |trail| ==> trail[j] != trail[k]
  }

  /** The `extends` chain from a name, up to its end, a missing parent, or a name met before. */
  ghost predicate IsTrail(defs: Registry, name: string, visited: set<string>, trail: seq<string>) {
    && trail != [] && trail[0] == name && Linked(defs, trail) && Distinct(trail)
    && (forall k :: 0 <= k < |trail| ==> trail[k] !in visited)
    && var parent := defs[trail[|trail| - 1]].parent;
       parent.None? || parent.value !in defs || parent.value in visited || parent.value in trail
  }

  /** Every definition on the trail, from the far end to the leaf. */
  function Union(defs: Registry, trail: seq<string>): Resolved
    requires trail != [] && forall k :: 0 <= k < |trail| ==> trail[k] in defs
  {
    var d := defs[trail[0]];
    if |trail| == 1 then Extended(Root(d), d)
    else
      assert forall k :: 0 <= k < |trail[1..]| ==> trail[1..][k] == trail[k + 1];
      Extended(Union(defs, trail[1..]), d)
  }

  /** What a trail resolves to. */
  ghost function Verdict(defs: Registry, trail: seq<string>): Result<Resolved, OverlayError>
    requires trail != [] && forall k :: 0 <= k < |trail| ==> trail[k] in defs
  {
    var last := trail[|trail| - 1];
    match defs[last].parent
    case None => Ok(Union(defs, trail))
    case Some(p) => if p !in defs then Err(UnresolvedParent(last, p)) else Err(InheritanceCycle(p))
  }

  lemma {:induction false} TrailExists(defs: Registry, name: string, visited: set<string>) returns (trail: seq<string>)
    requires name in defs && name !in visited
    ensures IsTrail(defs, name, visited, trail)
    decreases |defs.Keys - visited|
  {
    var parent := defs[name].parent;
    if parent.None? || parent.value !in defs || parent.value in visited + {name} {
      trail := [name];
    } else {
      OneFewer(defs, name, visited);
      var rest := TrailExists(defs, parent.value, visited + {name});
      trail := [name] + rest;
      LongerTrail(defs, name, visited, rest);
    }
  }

  lemma LongerTrail(defs: Registry, name: string, visited: set<string>, rest: seq<string>)
    requires name in defs && name !in visited && defs[name].parent.Some?
    requires IsTrail(defs, defs[name].parent.value, visited + {name}, rest)
    ensures IsTrail(defs, name, visited, [name] + rest)
  {
    var trail := [name] + rest;
    assert forall k :: 0 < k < |trail| ==> trail[k] == rest[k - 1];
    assert forall p :: p in rest ==> p in trail;
    assert name in trail;
  }

  lemma SmallerSet<T>(a: set<T>, b: set<T>)
    requires a < b
    ensures |a| < |b|
  {
    assert b == a + (b - a);
    assert |b| == |a| + |b - a|;
    assert b - a != {};
  }

  lemma TailIsTrail(defs: Registry, name: string, visited: set<string>, trail: seq<string>)
    requires IsTrail(defs, name, visited, trail) && |trail| > 1
    ensures IsTrail(defs, trail[1], visited + {name}, trail[1..])
    ensures defs[name].parent == Some(trail[1]) && trail[1] !in visited + {name}
  {
    var rest := trail[1..];
    assert forall k :: 0 <= k < |rest| ==> rest[k] == trail[k + 1];
    var parent := defs[trail[|trail| - 1]].parent;
    if parent.Some? && parent.value in trail {
      var k :| 0 <= k < |trail| && trail[k] == parent.value;
      assert k > 0 ==> rest[k - 1] == parent.value;
    }
  }

  /** The name's parent is absent, missing, or already met. */
  ghost predicate Stops(defs: Registry, name: string, visited: set<string>)
    requires name in defs
  {
    var p := defs[name].parent;
    p.None? || p.value !in defs || p.value in visited + {name}
  }

  lemma TrailStopsIff(defs: Registry, name: string, visited: set<string>, trail: seq<string>)
    requires IsTrail(defs, name, visited, trail)
    ensures name in defs && (|trail| == 1 <==> Stops(defs, name, visited))
    ensures |trail| == 1 ==> trail == [name]
  {
    if |trail| > 1 {
      TailIsTrail(defs, name, visited, trail);
      assert trail[1] in defs;
    }
  }

  /** There is only one trail from a name. */
  lemma {:induction false} TrailUnique(defs: Registry, name: string, visited: set<string>, a: seq<string>,
                                       b: seq<string>)
    requires IsTrail(defs, name, visited, a) && IsTrail(defs, name, visited, b)
    ensures a == b
    decreases |a|
  {
    TrailStopsIff(defs, name, visited, a);
    TrailStopsIff(defs, name, visited, b);
    if !Stops(defs, name, visited) {
      TailIsTrail(defs, name, visited, a);
      TailIsTrail(defs, name, visited, b);
      TrailUnique(defs, a[1], visited + {name}, a[1..], b[1..]);
      assert a == [name] + a[1..] && b == [name] + b[1..];
    }
  }

  // ----- The resolver -----------------------------------------------------------------------

  lemma OneFewer(defs: Registry, name: string, visited: set<string>)
    requires name in defs && name !in visited
    ensures |defs.Keys - (visited + {name})| < |defs.Keys - visited|
  {
    assert name in defs.Keys - visited;
    SmallerSet(defs.Keys - (visited + {name}), defs.Keys - visited);
  }

  /** The resolver's recursion; a name already being visited is a cycle. */
  function Answer(defs: Registry, name: string, visited: set<string>): Result<Resolved, OverlayError>
    decreases |defs.Keys - visited|
  {
    if name !in defs then Err(OverlayNotFound(name))
    else if name in visited then Err(InheritanceCycle(name))
    else
      match defs[name].parent
      case None => Ok(Extended(Root(defs[name]), defs[name]))
      case Some(p) =>
        if p !in defs then Err(UnresolvedParent(name, p))
        else
          OneFewer(defs, name, visited);
          OverParent(Answer(defs, p, visited + {name}), defs[name])
  }

  function OverParent(parent: Result<Resolved, OverlayError>, d: Definition): Result<Resolved, OverlayError> {
    match parent
    case Err(e) => Err(e)
    case Ok(base) => Ok(Extended(base, d))
  }

  class OverlayRegistry {
    var defs: Registry

    constructor ()
      ensures defs == map[]
    {
      defs := map[];
    }

    method DefineOverlay(overlay: Definition)
      modifies this
      ensures defs == old(defs)[overlay.name := overlay]
    {
      defs := defs[overlay.name := overlay];
    }

    /** Not found for a name nobody defined, else what its trail says. */
    method ResolveOverlay(name: string) returns (r: Result<Resolved, OverlayError>)
      ensures name !in defs ==> r == Err(OverlayNotFound(name))
      ensures forall trail :: IsTrail(defs, name, {}, trail) ==> r == Verdict(defs, trail)
    {
      AnswerSettles(defs, name, {});
      var visiting;
      r, visiting := ResolveOverlayInner(name, {});
    }

    method ResolveOverlayInner(name: string, visiting: set<string>)
      returns (r: Result<Resolved, OverlayError>, visiting': set<string>)
      ensures r == Answer(defs, name, visiting)
      ensures r.Ok? ==> visiting' == visiting
      decreases |defs.Keys - visiting|
    {
      visiting' := visiting;
      if name !in defs {
        return Err(OverlayNotFound(name)), visiting';
      }
      var def := defs[name];
      if name in visiting' {
        return Err(InheritanceCycle(name)), visiting';
      }
      visiting' := visiting' + {name};
      var base;
      if def.parent.Some? {
        if def.parent.value !in defs {
          return Err(UnresolvedParent(name, def.parent.value)), visiting';
        }
        OneFewer(defs, name, visiting);
        var parent;
        parent, visiting' := ResolveOverlayInner(def.parent.value, visiting');
        if parent.Err? {
          return parent, visiting';
        }
        base := parent.value;
      } else {
        base := Root(def);
      }
      var merged := MergeOver(base, def);
      visiting' := visiting' - {name};
      return Ok(merged), visiting';
    }

    /** The tail of the resolver: the definition is laid over what it extends. */
    static method MergeOver(base: Resolved, def: Definition) returns (r: Resolved)
      ensures r == Extended(base, def)
    {
      var collections := base.collections + Elements(def.collections);
      var mutations := base.mutations + Elements(def.mutations);
      var includeFields := MergeFieldMap(base.includeFields, def.includeFields);
      var excludeFields := MergeFieldMap(base.excludeFields, def.excludeFields);
      includeFields := MergeFieldMap(includeFields, def.additionallyInclude);
      return Resolved(def.name, def.access, collections, includeFields, excludeFields, mutations);
    }
  }

  lemma TailVerdict(defs: Registry, trail: seq<string>)
    requires |trail| > 1 && forall k :: 0 <= k < |trail| ==> trail[k] in defs
    ensures forall k :: 0 <= k < |trail[1..]| ==> trail[1..][k] in defs
    ensures Verdict(defs, trail) == OverParent(Verdict(defs, trail[1..]), defs[trail[0]])
  {
    var rest := trail[1..];
    assert forall k :: 0 <= k < |rest| ==> rest[k] == trail[k + 1];
    assert rest[|rest| - 1] == trail[|trail| - 1];
  }

  /** The recursion answers what the trail says. */
  lemma {:induction false} AnswerFollows(defs: Registry, name: string, visited: set<string>, trail: seq<string>)
    requires IsTrail(defs, name, visited, trail)
    ensures Answer(defs, name, visited) == Verdict(defs, trail)
    decreases |trail|
  {
    TrailStopsIff(defs, name, visited, trail);
    if |trail| > 1 {
      TailIsTrail(defs, name, visited, trail);
      AnswerFollows(defs, trail[1], visited + {name}, trail[1..]);
      TailVerdict(defs, trail);
    }
  }

  lemma AnswerSettles(defs: Registry, name: string, visited: set<string>)
    ensures forall trail :: IsTrail(defs, name, visited, trail) ==> Answer(defs, name, visited) == Verdict(defs, trail)
  {
    forall trail | IsTrail(defs, name, visited, trail) ensures Answer(defs, name, visited) == Verdict(defs, trail) {
      AnswerFollows(defs, name, visited, trail);
    }
  }

  // ----- What resolution means --------------------------------------------------------------

  /**
   Resolution ends on every registry, in exactly one of four ways: the name is not defined; its
   trail ends at a definition without a parent, at a missing parent, or at a name met before.
   */
  lemma ResolutionIsDecided(defs: Registry, name: string) returns (trail: seq<string>)
    ensures name in defs ==> IsTrail(defs, name, {}, trail)
    ensures name in defs ==> forall other :: IsTrail(defs, name, {}, other) ==> other == trail
  {
    trail := [];
    if name in defs {
      trail := TrailExists(defs, name, {});
      forall other | IsTrail(defs, name, {}, other) ensures other == trail {
        TrailUnique(defs, name, {}, other, trail);
      }
    }
  }

  /** A cycle is reported iff the chain comes back to a name on it, before an end or a missing parent. */
  lemma CycleIffRevisits(defs: Registry, name: string, trail: seq<string>)
    requires IsTrail(defs, name, {}, trail)
    ensures Verdict(defs, trail).Err? && Verdict(defs, trail).error.InheritanceCycle? <==>
              exists k, j :: 0 <= k <= j == |trail| - 1 && defs[trail[j]].parent == Some(trail[k])
    ensures Verdict(defs, trail).Err? && Verdict(defs, trail).error.UnresolvedParent? <==>
              defs[trail[|trail| - 1]].parent.Some? && defs[trail[|trail| - 1]].parent.value !in defs
  {
    var last := |trail| - 1;
    var p := defs[trail[last]].parent;
    if p.Some? && p.value in defs {
      var k :| 0 <= k < |trail| && trail[k] == p.value;
      assert 0 <= k <= last == |trail| - 1 && defs[trail[last]].parent == Some(trail[k]);
    }
  }

  ghost function Covering(collection: string): Definition -> bool {
    (d: Definition) => collection in d.collections
  }

  ghost function Allowing(mutation: Mutation): Definition -> bool {
    (d: Definition) => mutation in d.mutations
  }

  ghost function Including(collection: string, field: string): Definition -> bool {
    (d: Definition) =>
      || (collection in d.includeFields && field in d.includeFields[collection])
      || (collection in d.additionallyInclude && field in d.additionallyInclude[collection])
  }

  ghost function Excluding(collection: string, field: string): Definition -> bool {
    (d: Definition) => collection in d.excludeFields && field in d.excludeFields[collection]
  }

  ghost predicate AllDefined(defs: Registry, trail: seq<string>) {
    forall k :: 0 <= k < |trail| ==> trail[k] in defs
  }

  /** Some definition on the trail has the property. */
  ghost predicate Somewhere(defs: Registry, trail: seq<string>, p: Definition -> bool)
    requires AllDefined(defs, trail)
  {
    exists k :: 0 <= k < |trail| && p(defs[trail[k]])
  }

  lemma SomewhereStep(defs: Registry, trail: seq<string>, p: Definition -> bool)
    requires trail != [] && AllDefined(defs, trail)
    ensures AllDefined(defs, trail[1..])
    ensures Somewhere(defs, trail, p) <==> p(defs[trail[0]]) || Somewhere(defs, trail[1..], p)
  {
    assert forall k :: 0 <= k < |trail[1..]| ==> trail[1..][k] == trail[k + 1];
    if k :| 0 <= k < |trail| && p(defs[trail[k]]) {
      assert k > 0 ==> p(defs[trail[1..][k - 1]]);
    }
    if k :| 0 <= k < |trail[1..]| && p(defs[trail[1..][k]]) {
      assert p(defs[trail[k + 1]]);
    }
  }

  /** A resolved overlay has the leaf's name and access. */
  lemma LeafNames(defs: Registry, trail: seq<string>)
    requires trail != [] && AllDefined(defs, trail)
    ensures Union(defs, trail).name == defs[trail[0]].name && Union(defs, trail).access == defs[trail[0]].access
  {
  }

  /** The collections it covers are those of every definition on the trail. */
  lemma {:induction false} UnionCovers(defs: Registry, trail: seq<string>, collection: string)
    requires trail != [] && AllDefined(defs, trail)
    ensures collection in Union(defs, trail).collections <==> Somewhere(defs, trail, Covering(collection))
    decreases |trail|
  {
    SomewhereStep(defs, trail, Covering(collection));
    if |trail| > 1 {
      UnionCovers(defs, trail[1..], collection);
    }
  }

  lemma {:induction false} UnionAllows(defs: Registry, trail: seq<string>, mutation: Mutation)
    requires trail != [] && AllDefined(defs, trail)
    ensures mutation in Union(defs, trail).mutations <==> Somewhere(defs, trail, Allowing(mutation))
    decreases |trail|
  {
    SomewhereStep(defs, trail, Allowing(mutation));
    if |trail| > 1 {
      UnionAllows(defs, trail[1..], mutation);
    }
  }

  /** The fields it includes are those any definition includes or adds. */
  lemma {:induction false} UnionIncludes(defs: Registry, trail: seq<string>, collection: string, field: string)
    requires trail != [] && AllDefined(defs, trail)
    ensures field in FieldsOf(Union(defs, trail).includeFields, collection)
       <==> Somewhere(defs, trail, Including(collection, field))
    decreases |trail|
  {
    SomewhereStep(defs, trail, Including(collection, field));
    var d := defs[trail[0]];
    var base := if |trail| == 1 then Root(d) else Union(defs, trail[1..]);
    MergedFields(base.includeFields, d.includeFields, collection);
    MergedFields(Merged(base.includeFields, d.includeFields), d.additionallyInclude, collection);
    if |trail| > 1 {
      UnionIncludes(defs, trail[1..], collection, field);
    }
  }

  lemma {:induction false} UnionExcludes(defs: Registry, trail: seq<string>, collection: string, field: string)
    requires trail != [] && AllDefined(defs, trail)
    ensures field in FieldsOf(Union(defs, trail).excludeFields, collection)
       <==> Somewhere(defs, trail, Excluding(collection, field))
    decreases |trail|
  {
    SomewhereStep(defs, trail, Excluding(collection, field));
    var d := defs[trail[0]];
    MergedFields(if |trail| == 1 then map[] else Union(defs, trail[1..]).excludeFields, d.excludeFields, collection);
    if |trail| > 1 {
      UnionExcludes(defs, trail[1..], collection, field);
    }
  }

  /**
   Who sees a field: some definition on the trail covers the collection, or all collections, and
   either the leaf has full access or somebody on the trail includes the field and nobody excludes it.
   */
  lemma VisibleIff(defs: Registry, trail: seq<string>, collection: string, field: string)
    requires trail != [] && AllDefined(defs, trail)
    ensures Union(defs, trail).IsFieldVisible(collection, field) <==>
              && (Somewhere(defs, trail, Covering("*")) || Somewhere(defs, trail, Covering(collection)))
              && (|| defs[trail[0]].access == Full
                  || (Somewhere(defs, trail, Including(collection, field))
                      && !Somewhere(defs, trail, Excluding(collection, field))))
  {
    LeafNames(defs, trail);
    UnionCovers(defs, trail, "*");
    UnionCovers(defs, trail, collection);
    UnionIncludes(defs, trail, collection, field);
    UnionExcludes(defs, trail, collection, field);
  }

  /** A child may do whatever its parent may, and a child with partial access sees nothing an ancestor excludes. */
  lemma ChildrenInherit(defs: Registry, trail: seq<string>, collection: string, field: string, mutation: Mutation)
    requires |trail| > 1 && AllDefined(defs, trail)
    ensures AllDefined(defs, trail[1..])
    ensures mutation in Union(defs, trail[1..]).mutations ==> mutation in Union(defs, trail).mutations
    ensures Union(defs, trail[1..]).CanAccessCollection(collection) ==>
              Union(defs, trail).CanAccessCollection(collection)
    ensures defs[trail[0]].access == Partial && Somewhere(defs, trail[1..], Excluding(collection, field)) ==>
              !Union(defs, trail).IsFieldVisible(collection, field)
  {
    SomewhereStep(defs, trail, Excluding(collection, field));
    UnionExcludes(defs, trail, collection, field);
    LeafNames(defs, trail);
  }

  // ----- Masking ----------------------------------------------------------------------------

  datatype PrivacyError = CollectionDenied(collection: string)

  function Masked(collection: string, record: Record, overlay: Resolved): Record {
    map k | k in record && overlay.IsFieldVisible(collection, k) :: record[k]
  }

  /** Masking keeps exactly the visible fields, with their values. */
  method MaskRecordForOverlay(collection: string, record: Record, overlay: Resolved)
    returns (r: Result<Record, PrivacyError>)
    ensures r.Err? <==> !overlay.CanAccessCollection(collection)
    ensures r.Err? ==> r.error == CollectionDenied(collection)
    ensures r.Ok? ==> forall k :: k in r.value <==> k in record && overlay.IsFieldVisible(collection, k)
    ensures r.Ok? ==> forall k :: k in r.value ==> r.value[k] == record[k]
  {
    if !overlay.CanAccessCollection(collection) {
      return Err(CollectionDenied(collection));
    }
    var out: Record := map[];
    var todo := record.Keys;
    while todo != {}
      invariant todo <= record.Keys
      invariant forall k :: k in out <==> k in record && k !in todo && overlay.IsFieldVisible(collection, k)
      invariant forall k :: k in out ==> out[k] == record[k]
    {
      var k :| k in todo;
      if overlay.IsFieldVisible(collection, k) {
        out := out[k := record[k]];
      }
      todo := todo - {k};
    }
    return Ok(out);
  }

  /** A batch is refused iff its collection is, and there is a record to refuse. */
  method MaskRecordsForOverlay(collection: string, records: seq<Record>, overlay: Resolved)
    returns (r: Result<seq<Record>, PrivacyError>)
    ensures r.Err? <==> records != [] && !overlay.CanAccessCollection(collection)
    ensures r.Err? ==> r.error == CollectionDenied(collection)
    ensures r.Ok? ==> |r.value| == |records|
                      && forall i :: 0 <= i < |records| ==> r.value[i] == Masked(collection, records[i], overlay)
  {
    var out := [];
    for i := 0 to |records|
      invariant |out| == i && (i > 0 ==> overlay.CanAccessCollection(collection))
      invariant forall j :: 0 <= j < i ==> out[j] == Masked(collection, records[j], overlay)
    {
      var one := MaskRecordForOverlay(collection, records[i], overlay);
      if one.Err? {
        return Err(one.error);
      }
      assert one.value == Masked(collection, records[i], overlay);
      out := out + [one.value];
    }
    return Ok(out);
  }
}
