/** `LIKE 'prefix%'` over the keys of the exact index, and exactly when a limit loses rows. */
module PrefixQueries {
  import opened Wrappers
  import opened Json
  import opened Ordering
  import opened SortRuns
  import opened Indexes
  import opened Query
  import opened RowsById
  import Bytes
  import IndexQueries
  import JsonText
  import Like
  import PrefixRange

  /** The pattern of a query whose only clause is `field LIKE pattern`. */
  predicate SingleLike(ast: Ast) {
    |ast.wheres| == 1 && ast.includes == [] && ast.wheres[0].op == LikeOp && ast.wheres[0].value.Text?
  }

  function PrefixOf(ast: Ast): Option<string> {
    if SingleLike(ast) then Like.PrefixLiteral(ast.wheres[0].value.s) else None
  }

  predicate HasPrefix(view: map<nat, Record>, id: nat, field: string, p: string) {
    id in view && field in view[id] && view[id][field].String? && p <= view[id][field].s
  }

  lemma MatchesHavePrefix(view: map<nat, Record>, ast: Ast, num: NumberTest, id: nat)
    requires PrefixOf(ast).Some?
    ensures id in MatchingIds(view, ast, num) <==> HasPrefix(view, id, ast.wheres[0].field, PrefixOf(ast).value)
  {
    var w := ast.wheres[0];
    if id in view && w.field in view[id] && view[id][w.field].String? {
      Like.PrefixShortcut(view[id][w.field].s, w.value.s);
      assert MatchesRecord(view[id], ast.wheres, num) <==> LiteralMatches(view[id][w.field], LikeOp, w.value, num);
    }
  }

  // ----- The posting lists of one field ------------------------------------------------------

  type Lists = map<string, set<nat>>

  function ListsOf(inv: Inverted, field: string): Lists {
    if field in inv.ids then inv.ids[field] else map[]
  }

  function ListAt(lists: Lists, key: string): set<nat> {
    if key in lists then lists[key] else {}
  }

  predicate Keyed(view: map<nat, Record>, id: nat, field: string, key: string) {
    id in view && field in view[id] && view[id][field].String? && JsonText.ValueKey(view[id][field].s) == key
  }

  /** Every record with a string in the field is filed under that string's key, and nowhere else. */
  ghost predicate FilesStrings(lists: Lists, view: map<nat, Record>, field: string) {
    forall key, id :: id in ListAt(lists, key) <==> Keyed(view, id, field, key)
  }

  lemma MirrorFilesStrings(idx: SecondaryIndexes, view: map<nat, Record>, field: string)
    requires idx.Mirror(view) && WritesStrings(idx.toJson) && field in idx.exactFields
    ensures FilesStrings(ListsOf(idx.exact, field), view, field)
  {
    forall key, id ensures id in ListAt(ListsOf(idx.exact, field), key) <==> Keyed(view, id, field, key) {
      assert id in IdsAt(idx.exact.ids, (field, key))
        <==> Wanted(ExactOf(view, idx.exactFields, idx.toJson), id, (field, key));
      if Keyed(view, id, field, key) {
        assert (field, idx.toJson(view[id][field])) in ExactPairs(view[id], idx.exactFields, idx.toJson);
      }
    }
  }

  // ----- The key range -----------------------------------------------------------------------

  function Low(p: string): Bytes.bytes {
    Bytes.Utf8(JsonText.PrefixKey(p))
  }

  ghost predicate Scanned(key: string, p: string) {
    PrefixRange.InRange(Bytes.Utf8(key), Low(p), PrefixRange.UpperBound(Low(p)))
  }

  /** The ids filed under keys of the scanned range. */
  ghost function ScannedIds(lists: Lists, p: string): set<nat> {
    set key, id | key in lists && Scanned(key, p) && id in lists[key] :: id
  }

  /** No key of the range leaves the prefix: it has an upper bound, or nothing sorts above it. */
  ghost predicate Closed(p: string) {
    PrefixRange.UpperBound(Low(p)).Some? || forall i :: 0 <= i < |p| ==> p[i] == PrefixRange.MAX_CHAR
  }

  lemma ScannedIffInRange(lists: Lists, view: map<nat, Record>, field: string, p: string, id: nat)
    requires FilesStrings(lists, view, field)
    ensures id in ScannedIds(lists, p)
        <==> id in view && field in view[id] && view[id][field].String? && PrefixRange.KeyInRange(view[id][field].s, p)
  {
    if id in ScannedIds(lists, p) {
      var key :| key in lists && Scanned(key, p) && id in lists[key];
      assert id in ListAt(lists, key);
      assert Keyed(view, id, field, key);
    }
    if id in view && field in view[id] && view[id][field].String? && PrefixRange.KeyInRange(view[id][field].s, p) {
      var key := JsonText.ValueKey(view[id][field].s);
      assert Keyed(view, id, field, key);
      assert id in ListAt(lists, key) && key in lists && Scanned(key, p);
    }
  }

  /** The scanned range holds every match, and nothing else when it is closed. */
  lemma ScanHoldsMatches(lists: Lists, view: map<nat, Record>, ast: Ast, num: NumberTest)
    requires PrefixOf(ast).Some? && FilesStrings(lists, view, ast.wheres[0].field)
    ensures MatchingIds(view, ast, num) <= ScannedIds(lists, PrefixOf(ast).value)
    ensures Closed(PrefixOf(ast).value) ==> ScannedIds(lists, PrefixOf(ast).value) == MatchingIds(view, ast, num)
  {
    var p, field := PrefixOf(ast).value, ast.wheres[0].field;
    PrefixRange.KeyRangeExactIff(p);
    forall id ensures id in MatchingIds(view, ast, num) ==> id in ScannedIds(lists, p)
              ensures Closed(p) && id in ScannedIds(lists, p) ==> id in MatchingIds(view, ast, num)
    {
      MatchesHavePrefix(view, ast, num, id);
      ScannedIffInRange(lists, view, field, p, id);
      if id in view && field in view[id] && view[id][field].String? {
        PrefixRange.KeyRangeHoldsPrefix(p, view[id][field].s);
      }
    }
  }

  // ----- Scanning in key order ---------------------------------------------------------------

  function TextOrder(): (string, string) -> bool {
    (a: string, b: string) => Bytes.TextLess(a, b)
  }

  lemma TextOrderIsTotal()
    ensures StrictTotalOrder(TextOrder())
  {
    forall a, b ensures TextOrder()(a, b) || a == b || TextOrder()(b, a) {
      Bytes.TextTotal(a, b);
    }
    forall a ensures !TextOrder()(a, a) {
      Bytes.TextTotal(a, a);
    }
    forall a, b, c | TextOrder()(a, b) && TextOrder()(b, c) ensures TextOrder()(a, c) {
      Bytes.TextTransitive(a, b, c);
    }
  }

  /** A B-tree iterates its keys in this order. */
  method KeysInOrder(s: set<string>) returns (keys: seq<string>)
    ensures forall k :: k in keys <==> k in s
    ensures forall i, j :: 0 <= i < j < |keys| ==> Bytes.TextLess(keys[i], keys[j])
  {
    TextOrderIsTotal();
    keys := LayOut(s, TextOrder());
    ArrangeSpec(s, TextOrder());
    forall i, j | 0 <= i < j < |keys| ensures Bytes.TextLess(keys[i], keys[j]) {
      assert TextOrder()(keys[i], keys[j]);
    }
  }

  /** The keys that `with_prefix_idsets` visits, in its order. */
  method ScanKeys(lists: Lists, p: string, fromUtf8: Bytes.bytes -> Option<string>) returns (keys: seq<string>)
    requires PrefixRange.Decodes(fromUtf8)
    ensures forall k :: k in keys <==> k in lists && Scanned(k, p)
    ensures forall i, j :: 0 <= i < j < |keys| ==> Bytes.TextLess(keys[i], keys[j])
  {
    var lo := Low(p);
    var bound := PrefixRange.PrefixUpperBound(lo, fromUtf8);
    PrefixRange.UpperBoundIsMethods(lo, fromUtf8, bound);
    var inRange := set k | k in lists && !Bytes.LexLess(Bytes.Utf8(k), lo)
                        && (bound.Some? ==> Bytes.LexLess(Bytes.Utf8(k), Bytes.Utf8(bound.value)));
    keys := KeysInOrder(inRange);
  }

  /** The ids filed under these keys. */
  function IdsUnder(lists: Lists, keys: seq<string>): (ids: set<nat>)
    ensures forall id :: id in ids <==> exists k :: k in keys && id in ListAt(lists, k)
  {
    if keys == [] then {}
    else IdsUnder(lists, keys[..|keys| - 1]) + ListAt(lists, keys[|keys| - 1])
  }

  lemma ScannedIsUnder(lists: Lists, p: string, keys: seq<string>)
    requires forall k :: k in keys <==> k in lists && Scanned(k, p)
    ensures IdsUnder(lists, keys) == ScannedIds(lists, p)
  {
    forall id ensures id in IdsUnder(lists, keys) <==> id in ScannedIds(lists, p) {
      if k :| k in keys && id in ListAt(lists, k) {
        assert k in lists && Scanned(k, p) && id in lists[k];
      }
      if k :| k in lists && Scanned(k, p) && id in lists[k] {
        assert k in keys && id in ListAt(lists, k);
      }
    }
  }

  // ----- The path ----------------------------------------------------------------------------

  predicate OrdersById(ast: Ast) {
    ast.orderBy.Some? && ast.orderBy.value.field == "id"
  }

  /** A query by id with a limit goes to the ordered index, when that has entries. */
  predicate Detours(idx: SecondaryIndexes, ast: Ast)
    reads idx
  {
    OrdersById(ast) && IndexQueries.Ordered(ast) && IndexQueries.HasRun(idx, "id")
  }

  /**
   `LIKE 'prefix%'`. It declines only where there is nothing to find. By id it gives the ordered
   index's rows, or those of a bounded heap over the scanned range. Without an order by id it takes
   ids as the scan comes to them until there are enough, and gives exactly as many distinct matching
   records as there are, or as asked for.
   */
  method PrefixStringIndexQueryRows(idx: SecondaryIndexes, view: map<nat, Record>, ast: Ast, num: NumberTest,
                                    fromUtf8: Bytes.bytes -> Option<string>, ghost current: map<nat, Record>)
    returns (rows: Option<seq<Record>>, ghost ids: seq<nat>)
    requires PrefixRange.Decodes(fromUtf8) && idx.Mirror(current) && WritesStrings(idx.toJson)
    ensures |ast.wheres| != 1 || ast.includes != [] ==> rows.None?
    ensures rows.Some? ==> PrefixOf(ast).Some? && ast.wheres[0].field in idx.exactFields
    ensures rows.None? && PrefixOf(ast).Some? && ast.wheres[0].field in idx.exactFields ==>
              MatchingIds(current, ast, num) == {}
    ensures rows.Some? && Detours(idx, ast) ==> rows.value == IndexQueries.ListedRows(current, view, ast, num)
    ensures rows.Some? && !Detours(idx, ast) && OrdersById(ast) ==>
              rows.value == PrefixRows(ListsOf(idx.exact, ast.wheres[0].field), view, ast, num,
                                       ast.orderBy.value.direction)
    ensures rows.Some? && !OrdersById(ast) ==> rows.value == IdRows(ids, view, Matcher(ast, num))
    ensures rows.Some? && !OrdersById(ast) && view == current ==>
              Sampled(ids, MatchingIds(view, ast, num), ast.limit) && |rows.value| == |ids|
  {
    ids := [];
    if PrefixOf(ast).None? {
      return None, ids;
    }
    var field, p := ast.wheres[0].field, PrefixOf(ast).value;
    if field !in idx.exactFields {
      return None, ids;
    }
    MirrorFilesStrings(idx, current, field);
    if field !in idx.exact.ids {
      ScanHoldsMatches(map[], current, ast, num);
      return None, ids;
    }
    if OrdersById(ast) {
      rows := IndexQueries.SortIndexQueryRows(idx, view, ast, num, current);
      if rows.Some? {
        return rows, ids;
      }
      var top := HeapRows(idx.exact.ids[field], view, ast, num, ast.orderBy.value.direction, fromUtf8);
      return Some(top), ids;
    }
    var some;
    some, ids := UnorderedRows(idx.exact.ids[field], view, ast, num, fromUtf8, current);
    return Some(some), ids;
  }

  // ----- By id: the bounded heap -------------------------------------------------------------

  method HeapRows(lists: Lists, view: map<nat, Record>, ast: Ast, num: NumberTest, dir: Direction,
                  fromUtf8: Bytes.bytes -> Option<string>)
    returns (rows: seq<Record>)
    requires PrefixRange.Decodes(fromUtf8) && PrefixOf(ast).Some?
    ensures rows == PrefixRows(lists, view, ast, num, dir)
  {
    var keys := ScanKeys(lists, PrefixOf(ast).value, fromUtf8);
    ScannedIsUnder(lists, PrefixOf(ast).value, keys);
    var candidates := IdsUnder(lists, keys);
    var limit := if ast.limit.Some? then ast.limit.value else |candidates|;
    var heap := BoundedHeap(candidates, limit, dir);
    HeapIsTop(heap, candidates, limit, dir);
    IdsArranged(candidates, dir);
    var ids := SortIds(heap, dir);
    assert ids == AtMost(InIdOrder(candidates, dir), ast.limit);
    rows := IdRows(ids, view, Matcher(ast, num));
  }

  ghost function PrefixRows(lists: Lists, view: map<nat, Record>, ast: Ast, num: NumberTest,
                            dir: Direction): seq<Record>
    requires PrefixOf(ast).Some?
  {
    IdRows(AtMost(InIdOrder(ScannedIds(lists, PrefixOf(ast).value), dir), ast.limit), view, Matcher(ast, num))
  }

  /** Over a closed range, or without a limit, the heap gives exactly the first matches by id. */
  lemma PrefixPathExact(lists: Lists, view: map<nat, Record>, ast: Ast, num: NumberTest, dir: Direction)
    requires PrefixOf(ast).Some? && FilesStrings(lists, view, ast.wheres[0].field)
    requires Closed(PrefixOf(ast).value) || ast.limit.None?
    ensures PrefixRows(lists, view, ast, num, dir) == TopById(view, ast, num, dir)
  {
    ScanHoldsMatches(lists, view, ast, num);
    if ast.limit.None? {
      IdRowsOfSubset(MatchingIds(view, ast, num), ScannedIds(lists, PrefixOf(ast).value), dir, view, Matcher(ast, num));
    }
  }

  /** A value that leaves the prefix upwards at `i`. */
  function Stray(p: string, i: nat): string
    requires i < |p|
  {
    p[..i] + [PrefixRange.MAX_CHAR]
  }

  /** A record with such a value, and one with the prefix itself. */
  function StrayAndMatch(field: string, p: string, i: nat): map<nat, Record>
    requires i < |p|
  {
    map[1 := map[field := String(Stray(p, i))], 2 := map[field := String(p)]]
  }

  function StrayLists(p: string, i: nat): Lists
    requires i < |p|
  {
    map[JsonText.ValueKey(Stray(p, i)) := {1}, JsonText.ValueKey(p) := {2}]
  }

  function FirstWithPrefix(field: string, p: string): Ast {
    Ast([Where(field, LikeOp, Text(p + "%"))], [], Some(OrderBy("id", Asc)), Some(1))
  }

  lemma StrayFiled(field: string, p: string, i: nat)
    requires i < |p| && p[i] != PrefixRange.MAX_CHAR
    ensures FilesStrings(StrayLists(p, i), StrayAndMatch(field, p, i), field)
  {
    var lists, view := StrayLists(p, i), StrayAndMatch(field, p, i);
    PrefixRange.StrayValue(p, i);
    if JsonText.ValueKey(Stray(p, i)) == JsonText.ValueKey(p) {
      JsonText.ValueKeyInjective(Stray(p, i), p);
    }
    forall key, id ensures id in ListAt(lists, key) <==> Keyed(view, id, field, key) {
    }
  }

  /**
   Over a range that is not closed the limited path loses rows: asked for the first record with the
   prefix, it looks at a stray record only and returns nothing, although a match exists.
   */
  lemma LimitedPathLosesRows(field: string, p: string, i: nat, num: NumberTest)
    requires i < |p| && p[i] != PrefixRange.MAX_CHAR && Like.Literal(p) && PrefixRange.UpperBound(Low(p)).None?
    ensures var view, ast := StrayAndMatch(field, p, i), FirstWithPrefix(field, p);
            && PrefixOf(ast) == Some(p)
            && PrefixRows(StrayLists(p, i), view, ast, num, Asc) == []
            && TopById(view, ast, num, Asc) == [view[2]]
  {
    var view, ast := StrayAndMatch(field, p, i), FirstWithPrefix(field, p);
    assert (p + "%")[..|p|] == p;
    OnlySecondMatches(field, p, i, num);
    BothScanned(field, p, i, num);
    FirstOfTwo();
    NoMatches([1], view, ast, num);
    AllRows([2], view, Matcher(ast, num));
  }

  lemma FirstOfTwo()
    ensures Take(InIdOrder({1, 2}, Asc), 1) == [1] && Take(InIdOrder({2}, Asc), 1) == [2]
  {
    IdsUnique([1, 2], {1, 2}, Asc);
    IdsUnique([2], {2}, Asc);
  }

  lemma OnlySecondMatches(field: string, p: string, i: nat, num: NumberTest)
    requires i < |p| && p[i] != PrefixRange.MAX_CHAR && PrefixOf(FirstWithPrefix(field, p)) == Some(p)
    ensures MatchingIds(StrayAndMatch(field, p, i), FirstWithPrefix(field, p), num) == {2}
  {
    PrefixRange.StrayValue(p, i);
    forall id ensures id in MatchingIds(StrayAndMatch(field, p, i), FirstWithPrefix(field, p), num) <==> id == 2 {
      MatchesHavePrefix(StrayAndMatch(field, p, i), FirstWithPrefix(field, p), num, id);
    }
  }

  lemma BothScanned(field: string, p: string, i: nat, num: NumberTest)
    requires i < |p| && p[i] != PrefixRange.MAX_CHAR && PrefixRange.UpperBound(Low(p)).None?
    ensures ScannedIds(StrayLists(p, i), p) == {1, 2}
  {
    var lists, view := StrayLists(p, i), StrayAndMatch(field, p, i);
    StrayFiled(field, p, i);
    PrefixRange.StrayValue(p, i);
    Bytes.LexAsymmetric(Low(p), Bytes.Utf8(JsonText.ValueKey(Stray(p, i))));
    PrefixRange.KeyRangeHoldsPrefix(p, p);
    forall id ensures id in ScannedIds(lists, p) <==> id == 1 || id == 2 {
      ScannedIffInRange(lists, view, field, p, id);
    }
  }

  /**
   The heap gives the first matches by id, over all records, limits and directions, iff the scanned
   range is closed.
   */
  lemma PrefixPathExactIff(p: string, num: NumberTest)
    requires p != "" && Like.Literal(p)
    ensures (forall lists: Lists, view: map<nat, Record>, ast: Ast, dir: Direction ::
              PrefixOf(ast) == Some(p) && FilesStrings(lists, view, ast.wheres[0].field) ==>
                PrefixRows(lists, view, ast, num, dir) == TopById(view, ast, num, dir))
            <==> Closed(p)
  {
    if Closed(p) {
      forall lists: Lists, view: map<nat, Record>, ast: Ast, dir: Direction
        | PrefixOf(ast) == Some(p) && FilesStrings(lists, view, ast.wheres[0].field)
        ensures PrefixRows(lists, view, ast, num, dir) == TopById(view, ast, num, dir)
      {
        PrefixPathExact(lists, view, ast, num, dir);
      }
    } else {
      var i :| 0 <= i < |p| && p[i] != PrefixRange.MAX_CHAR;
      LimitedPathLosesRows("", p, i, num);
      StrayFiled("", p, i);
      assert FirstWithPrefix("", p).wheres[0].field == "";
    }
  }

  // ----- By id: the ordered index ------------------------------------------------------------

  /** Where every record carries its id, the rows of the ordered index are the first by id as well. */
  lemma DetourIsById(view: map<nat, Record>, ast: Ast, num: NumberTest)
    requires OrdersById(ast) && IndexQueries.Ordered(ast)
    requires forall id :: id in view ==> FieldSortKey(view[id], "id") == Some(id)
    ensures IndexQueries.TopRows(view, ast, num) == TopById(view, ast, num, ast.orderBy.value.direction)
  {
    var dir, matches := ast.orderBy.value.direction, Matcher(ast, num);
    var entries := EntriesOf(KeysOf(view, "id"));
    var matching := MatchingIds(view, ast, num);
    SameOrder(view.Keys, entries, dir);
    RowsAreIdRows(Arrange(entries, Order(dir)), view, matches);
    IdRowsOfSubset(matching, view.Keys, dir, view, matches);
    IdsArranged(matching, dir);
    AllRows(InIdOrder(matching, dir), view, matches);
    AllRows(Take(InIdOrder(matching, dir), ast.limit.value), view, matches);
  }

  function IdsIn(entries: seq<Entry>): (ids: seq<nat>)
    ensures |ids| == |entries| && forall i :: 0 <= i < |ids| ==> ids[i] == entries[i].recordId
  {
    if entries == [] then [] else [entries[0].recordId] + IdsIn(entries[1..])
  }

  lemma {:induction false} RowsAreIdRows(entries: seq<Entry>, view: map<nat, Record>, matches: Record -> bool)
    ensures Rows(entries, view, matches) == IdRows(IdsIn(entries), view, matches)
    decreases |entries|
  {
    if entries == [] {
    } else {
      RowsAreIdRows(entries[1..], view, matches);
      assert IdsIn(entries)[1..] == IdsIn(entries[1..]);
    }
  }

  /** Entries whose key is their id stand in the order of the ids. */
  lemma SameOrder(ids: set<nat>, entries: set<Entry>, dir: Direction)
    requires forall e :: e in entries <==> e.recordId in ids && e.key == e.recordId
    ensures IdsIn(Arrange(entries, Order(dir))) == InIdOrder(ids, dir)
  {
    var q := Arrange(entries, Order(dir));
    Arranged(entries, dir);
    var r := IdsIn(q);
    forall i, j | 0 <= i < j < |r| ensures IdBefore(dir, r[i], r[j]) {
      assert q[i] in q && q[j] in q && Before(dir, q[i], q[j]);
    }
    forall id ensures id in r <==> id in ids {
      if id in ids {
        assert Entry(id, id) in q;
      }
      if i :| 0 <= i < |r| && r[i] == id {
        assert q[i] in q;
      }
    }
    IdsUnique(r, ids, dir);
  }

  // ----- As the scan comes -------------------------------------------------------------------

  predicate Prefixed(key: string, p: string) {
    Low(p) <= Bytes.Utf8(key)
  }

  /** The keys with the prefix come before all others of the range. */
  lemma PrefixedFirst(keys: seq<string>, p: string) returns (m: nat)
    requires forall k :: k in keys ==> Scanned(k, p)
    requires forall i, j :: 0 <= i < j < |keys| ==> Bytes.TextLess(keys[i], keys[j])
    ensures m <= |keys|
    ensures forall i :: 0 <= i < |keys| ==> (Prefixed(keys[i], p) <==> i < m)
  {
    m := 0;
    while m < |keys| && Prefixed(keys[m], p)
      invariant m <= |keys|
      invariant forall i :: 0 <= i < m ==> Prefixed(keys[i], p)
    {
      m := m + 1;
    }
    forall i | m <= i < |keys| ensures !Prefixed(keys[i], p) {
      if m < i && Prefixed(keys[i], p) {
        assert keys[m] in keys && keys[i] in keys;
        PrefixedBeforeStray(Low(p), Bytes.Utf8(keys[i]), Bytes.Utf8(keys[m]));
        Bytes.LexAsymmetric(Bytes.Utf8(keys[i]), Bytes.Utf8(keys[m]));
      }
    }
  }

  lemma {:induction false} PrefixedBeforeStray(lo: Bytes.bytes, k: Bytes.bytes, stray: Bytes.bytes)
    requires lo <= k && !(lo <= stray) && !Bytes.LexLess(stray, lo)
    ensures Bytes.LexLess(k, stray)
    decreases |lo|
  {
    assert lo != [] && stray != [];
    if stray[0] == lo[0] {
      assert lo[1..] <= k[1..];
      assert lo[1..] <= stray[1..] ==> lo <= stray by {
        assert lo == [lo[0]] + lo[1..] && stray == [stray[0]] + stray[1..];
      }
      PrefixedBeforeStray(lo[1..], k[1..], stray[1..]);
    }
  }

  /** The scan without an order by id. */
  method UnorderedRows(lists: Lists, view: map<nat, Record>, ast: Ast, num: NumberTest,
                       fromUtf8: Bytes.bytes -> Option<string>, ghost current: map<nat, Record>)
    returns (rows: seq<Record>, ghost front: seq<nat>)
    requires PrefixRange.Decodes(fromUtf8) && PrefixOf(ast).Some?
    requires FilesStrings(lists, current, ast.wheres[0].field)
    ensures rows == IdRows(front, view, Matcher(ast, num))
    ensures view == current ==> Sampled(front, MatchingIds(view, ast, num), ast.limit) && |rows| == |front|
  {
    ghost var field, p := ast.wheres[0].field, PrefixOf(ast).value;
    var keys := ScanKeys(lists, PrefixOf(ast).value, fromUtf8);
    ghost var m := PrefixedFirst(keys, p);
    var ids;
    ghost var extra;
    ids, front, extra := SampleKeys(lists, keys, ast.limit, m, current, field);
    rows := IdRows(ids, view, Matcher(ast, num));
    if view == current {
      PrefixedAreMatches(lists, view, ast, num, keys, m);
      FrontRows(front, extra, view, ast, num);
    } else {
      front := ids;
    }
  }

  lemma FrontRows(front: seq<nat>, extra: seq<nat>, view: map<nat, Record>, ast: Ast, num: NumberTest)
    requires IdSet(front) <= MatchingIds(view, ast, num) && IdSet(extra) !! MatchingIds(view, ast, num)
    ensures IdRows(front + extra, view, Matcher(ast, num)) == IdRows(front, view, Matcher(ast, num))
    ensures |IdRows(front, view, Matcher(ast, num))| == |front|
  {
    IdRowsAppend(front, extra, view, Matcher(ast, num));
    assert forall id :: id in extra ==> id in IdSet(extra);
    NoMatches(extra, view, ast, num);
    assert forall id :: id in front ==> id in IdSet(front);
    AllRows(front, view, Matcher(ast, num));
  }

  lemma PrefixedAreMatches(lists: Lists, view: map<nat, Record>, ast: Ast, num: NumberTest, keys: seq<string>, m: nat)
    requires PrefixOf(ast).Some? && FilesStrings(lists, view, ast.wheres[0].field) && m <= |keys|
    requires forall k :: k in keys <==> k in lists && Scanned(k, PrefixOf(ast).value)
    requires forall i :: 0 <= i < |keys| ==> (Prefixed(keys[i], PrefixOf(ast).value) <==> i < m)
    ensures IdsUnder(lists, keys[..m]) == MatchingIds(view, ast, num)
    ensures IdsUnder(lists, keys[m..]) !! MatchingIds(view, ast, num)
  {
    var p := PrefixOf(ast).value;
    forall k, id | k in keys[..m] && id in ListAt(lists, k) ensures id in MatchingIds(view, ast, num) {
      PrefixedIsMatch(lists, view, ast, num, k, id);
    }
    forall k, id | k in keys[m..] && id in ListAt(lists, k) ensures id !in MatchingIds(view, ast, num) {
      PrefixedIsMatch(lists, view, ast, num, k, id);
    }
    ScanHoldsMatches(lists, view, ast, num);
    ScannedIsUnder(lists, p, keys);
    forall id | id in MatchingIds(view, ast, num) ensures id in IdsUnder(lists, keys[..m]) {
      var i :| 0 <= i < |keys| && id in ListAt(lists, keys[i]);
      PrefixedIsMatch(lists, view, ast, num, keys[i], id);
      assert keys[i] in keys[..m];
    }
  }

  /** What is filed under a key matches iff the key has the prefix. */
  lemma PrefixedIsMatch(lists: Lists, view: map<nat, Record>, ast: Ast, num: NumberTest, key: string, id: nat)
    requires PrefixOf(ast).Some? && FilesStrings(lists, view, ast.wheres[0].field) && id in ListAt(lists, key)
    ensures id in MatchingIds(view, ast, num) <==> Prefixed(key, PrefixOf(ast).value)
  {
    var p := PrefixOf(ast).value;
    assert Keyed(view, id, ast.wheres[0].field, key);
    var v := view[id][ast.wheres[0].field].s;
    MatchesHavePrefix(view, ast, num, id);
    JsonText.PrefixKeyExact(p, v);
    Bytes.Utf8Prefix(JsonText.PrefixKey(p), key);
  }

  /** After the first `i` keys: a sample of what is filed under those with the prefix, then ids under others. */
  ghost predicate SampledTo(lists: Lists, keys: seq<string>, m: nat, i: nat, front: seq<nat>, extra: seq<nat>,
                            limit: Option<nat>)
    requires m <= |keys| && i <= |keys|
  {
    && Sampled(front, IdsUnder(lists, keys[..Min(i, m)]), limit)
    && IdSet(extra) <= IdsUnder(lists, keys[m..])
    && (i <= m ==> extra == [])
  }

  /** The loop over the keys: a posting list at a time, until there are enough. */
  method SampleKeys(lists: Lists, keys: seq<string>, limit: Option<nat>, ghost m: nat,
                    ghost current: map<nat, Record>, ghost field: string)
    returns (ids: seq<nat>, ghost front: seq<nat>, ghost extra: seq<nat>)
    requires m <= |keys| && FilesStrings(lists, current, field)
    requires forall i, j :: 0 <= i < j < |keys| ==> Bytes.TextLess(keys[i], keys[j])
    ensures ids == front + extra && SampledTo(lists, keys, m, |keys|, front, extra, limit)
  {
    ids, front, extra := [], [], [];
    for i := 0 to |keys|
      invariant ids == front + extra && SampledTo(lists, keys, m, i, front, extra, limit)
    {
      ids, front, extra := SampleKey(lists, keys, i, limit, m, ids, front, extra, current, field);
    }
  }

  method SampleKey(lists: Lists, keys: seq<string>, i: nat, limit: Option<nat>, ghost m: nat, ids: seq<nat>,
                   ghost front: seq<nat>, ghost extra: seq<nat>, ghost current: map<nat, Record>, ghost field: string)
    returns (ids': seq<nat>, ghost front': seq<nat>, ghost extra': seq<nat>)
    requires i < |keys| && m <= |keys| && FilesStrings(lists, current, field)
    requires forall i, j :: 0 <= i < j < |keys| ==> Bytes.TextLess(keys[i], keys[j])
    requires ids == front + extra && SampledTo(lists, keys, m, i, front, extra, limit)
    ensures ids' == front' + extra' && SampledTo(lists, keys, m, i + 1, front', extra', limit)
  {
    ghost var pushed;
    ids', pushed := PushIds(ListAt(lists, keys[i]), ids, limit, IdsUnder(lists, keys[..Min(i, m)]));
    if i < m {
      assert ids == front && ids' == ids' + [];
      OneKeyEach(lists, keys, i, current, field);
      UnderSnoc(lists, keys, i);
      front', extra' := ids', [];
    } else {
      ExtraGrows(lists, keys, m, i, front, extra, pushed);
      front', extra' := front, extra + pushed;
    }
  }

  lemma UnderSnoc(lists: Lists, keys: seq<string>, i: nat)
    requires i < |keys|
    ensures IdsUnder(lists, keys[..i + 1]) == IdsUnder(lists, keys[..i]) + ListAt(lists, keys[i])
  {
    assert keys[..i + 1][..i] == keys[..i];
  }

  lemma ExtraGrows(lists: Lists, keys: seq<string>, m: nat, i: nat, front: seq<nat>, extra: seq<nat>, pushed: seq<nat>)
    requires m <= i < |keys| && IdSet(extra) <= IdsUnder(lists, keys[m..]) && IdSet(pushed) <= ListAt(lists, keys[i])
    ensures IdSet(extra + pushed) <= IdsUnder(lists, keys[m..])
    ensures front + extra + pushed == front + (extra + pushed)
  {
    assert keys[m..][i - m] == keys[i];
    assert IdSet(extra + pushed) == IdSet(extra) + IdSet(pushed);
  }

  /** A record is filed under one key of the field. */
  lemma OneKeyEach(lists: Lists, keys: seq<string>, i: nat, view: map<nat, Record>, field: string)
    requires i < |keys| && FilesStrings(lists, view, field)
    requires forall i, j :: 0 <= i < j < |keys| ==> Bytes.TextLess(keys[i], keys[j])
    ensures IdsUnder(lists, keys[..i]) !! ListAt(lists, keys[i])
  {
    forall id | id in ListAt(lists, keys[i]) ensures id !in IdsUnder(lists, keys[..i]) {
      if k :| k in keys[..i] && id in ListAt(lists, k) {
        assert Keyed(view, id, field, k) && Keyed(view, id, field, keys[i]);
        Bytes.TextTotal(k, keys[i]);
      }
    }
  }
}
