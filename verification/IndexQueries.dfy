/**
 The ordered access paths. `current` is the committed state the indexes mirror, `view` what the
 querying transaction reads; the paths are complete when the two are the same.
 */
module IndexQueries {
  import opened Wrappers
  import opened Json
  import opened Ordering
  import opened SortRuns
  import opened Indexes
  import opened Query
  import Bytes
  import JsonText
  import Sorting

  // ----- Ordered path ------------------------------------------------------------------------

  /** The first `limit` records that satisfy the query, in the order of an integer field. */
  ghost function TopRows(view: map<nat, Record>, ast: Ast, num: NumberTest): seq<Record>
    requires ast.orderBy.Some? && ast.limit.Some?
  {
    ListedRows(view, view, ast, num)
  }

  /** The same, with the order taken from one state and the records read in another. */
  ghost function ListedRows(current: map<nat, Record>, view: map<nat, Record>, ast: Ast, num: NumberTest): seq<Record>
    requires ast.orderBy.Some? && ast.limit.Some?
  {
    Take(Rows(Arrange(EntriesOf(KeysOf(current, ast.orderBy.value.field)), Order(ast.orderBy.value.direction)),
              view, Matcher(ast, num)),
         ast.limit.value)
  }

  predicate Ordered(ast: Ast) {
    ast.orderBy.Some? && ast.limit.Some? && ast.limit.value != 0 && ast.includes == []
  }

  /** The index has entries for the field, stale ones included. */
  predicate HasRun(idx: SecondaryIndexes, field: string)
    reads idx
  {
    idx.RunOf(field).sealed != [] || idx.RunOf(field).active != {}
  }

  method SortIndexQueryRows(idx: SecondaryIndexes, view: map<nat, Record>, ast: Ast, num: NumberTest,
                            ghost current: map<nat, Record>)
    returns (rows: Option<seq<Record>>)
    requires idx.Mirror(current)
    ensures rows.Some? <==> Ordered(ast) && HasRun(idx, ast.orderBy.value.field)
    ensures ast.orderBy.None? || ast.limit.None? || ast.limit.value == 0 || ast.includes != [] ==> rows.None?
    ensures rows.None? && Ordered(ast) && ast.orderBy.value.field in idx.sortFields ==>
              KeysOf(current, ast.orderBy.value.field) == map[]
    ensures rows.Some? ==> rows.value == ListedRows(current, view, ast, num)
    ensures rows.Some? && view == current ==> rows.value == TopRows(view, ast, num)
    ensures rows.Some? && view == current ==> exists ids :: AreFirst(rows.value, ids, view, ast, num)
  {
    if !Ordered(ast) {
      return None;
    }
    var order, limit := ast.orderBy.value, ast.limit.value;
    var run := idx.RunOf(order.field);
    if run.sealed == [] && run.active == {} {
      if order.field in idx.sortFields {
        NothingLive(run, KeysOf(current, order.field));
      }
      return None;
    }
    assert Mirrors(run, KeysOf(current, order.field));
    var active := InOrder(run.active, order.direction);
    var out;
    if order.direction == Asc {
      out := MergeUp(run, active, view, Matcher(ast, num), limit);
    } else {
      out := MergeDown(run, active, view, Matcher(ast, num), limit);
    }
    ListingIsRebuilt(run, KeysOf(current, order.field), order.direction);
    ghost var ids := TopRowsAreFirst(view, ast, num);
    return Some(out);
  }

  lemma NothingLive(run: SortRun, want: map<nat, int>)
    requires Mirrors(run, want) && run.sealed == [] && run.active == {}
    ensures want == map[]
  {
    assert forall id :: id in want ==> Live(run, Entry(want[id], id));
  }

  // ----- What that order is ------------------------------------------------------------------

  predicate IntegerAt(r: Record, field: string, n: int) {
    field in r && HoldsInteger(r[field], n)
  }

  /** A record that the query accepts, with an integer of an `i64`'s range in the order field. */
  ghost predicate Entitled(view: map<nat, Record>, id: nat, ast: Ast, num: NumberTest)
    requires ast.orderBy.Some?
  {
    && id in MatchingIds(view, ast, num)
    && exists n :: I64_MIN <= n <= I64_MAX && IntegerAt(view[id], ast.orderBy.value.field, n)
  }

  /** By the integers the two records hold, smaller first going up, and by id between equal ones. */
  ghost predicate Precedes(view: map<nat, Record>, order: OrderBy, a: nat, b: nat)
    requires a in view && b in view
  {
    forall m, n :: IntegerAt(view[a], order.field, m) && IntegerAt(view[b], order.field, n) ==>
      if order.direction == Asc then m < n || (m == n && a < b) else m > n || (m == n && a > b)
  }

  /**
   The rows are those of these records, each entitled to be there, in the order of their integers; one
   that is left out comes after all of them, and only where the limit is reached.
   */
  ghost predicate AreFirst(rows: seq<Record>, ids: seq<nat>, view: map<nat, Record>, ast: Ast, num: NumberTest) {
    && ast.orderBy.Some? && ast.limit.Some?
    && |rows| == |ids| <= ast.limit.value
    && (forall k :: 0 <= k < |ids| ==> Entitled(view, ids[k], ast, num) && rows[k] == view[ids[k]])
    && (forall j, k :: 0 <= j < k < |ids| ==> Precedes(view, ast.orderBy.value, ids[j], ids[k]))
    && (forall id, k :: Entitled(view, id, ast, num) && id !in ids && 0 <= k < |ids| ==>
          Precedes(view, ast.orderBy.value, ids[k], id))
    && ((exists id :: Entitled(view, id, ast, num) && id !in ids) ==> |rows| == ast.limit.value)
  }

  ghost predicate EntryOf(view: map<nat, Record>, field: string, e: Entry) {
    e.recordId in view && FieldSortKey(view[e.recordId], field) == Some(e.key)
  }

  /** The ids behind the rows of a listing. */
  function RowIds(entries: seq<Entry>, view: map<nat, Record>, matches: Record -> bool): seq<nat> {
    if entries == [] then []
    else
      (if entries[0].recordId in view && matches(view[entries[0].recordId]) then [entries[0].recordId] else [])
      + RowIds(entries[1..], view, matches)
  }

  lemma {:induction false} RowIdsHold(entries: seq<Entry>, view: map<nat, Record>, matches: Record -> bool)
    ensures var ids, rows := RowIds(entries, view, matches), Rows(entries, view, matches);
            && |ids| == |rows|
            && (forall k :: 0 <= k < |ids| ==> ids[k] in view && matches(view[ids[k]]) && rows[k] == view[ids[k]])
            && (forall id :: id in ids ==> exists e :: e in entries && e.recordId == id)
            && (forall e :: e in entries && e.recordId in view && matches(view[e.recordId]) ==> e.recordId in ids)
    decreases |entries|
  {
    if entries == [] {
    } else {
      RowIdsHold(entries[1..], view, matches);
      assert entries == [entries[0]] + entries[1..];
      var ids := RowIds(entries[1..], view, matches);
      forall id | id in ids ensures exists e :: e in entries && e.recordId == id {
        var e :| e in entries[1..] && e.recordId == id;
        assert e in entries;
      }
    }
  }

  lemma BeforePrecedes(view: map<nat, Record>, order: OrderBy, a: Entry, b: Entry)
    requires EntryOf(view, order.field, a) && EntryOf(view, order.field, b) && Before(order.direction, a, b)
    ensures Precedes(view, order, a.recordId, b.recordId)
  {
    SortKeyIff(view[a.recordId][order.field], a.key);
    SortKeyIff(view[b.recordId][order.field], b.key);
  }

  lemma {:induction false} RowIdsAscend(entries: seq<Entry>, view: map<nat, Record>, matches: Record -> bool,
                                        order: OrderBy)
    requires Ascends(entries, Order(order.direction))
    requires forall e :: e in entries ==> EntryOf(view, order.field, e)
    ensures Ascends(RowIds(entries, view, matches), IntegerOrder(view, order))
    decreases |entries|
  {
    if entries == [] {
    } else {
      assert forall e :: e in entries[1..] ==> e in entries;
      RowIdsAscend(entries[1..], view, matches, order);
      HeadPrecedes(entries, view, matches, order);
      AscendsFrom(entries[0].recordId, RowIds(entries[1..], view, matches), IntegerOrder(view, order));
    }
  }

  ghost function IntegerOrder(view: map<nat, Record>, order: OrderBy): (nat, nat) -> bool {
    (a: nat, b: nat) => a in view && b in view && Precedes(view, order, a, b)
  }

  ghost predicate ComesFirst(id: nat, ids: seq<nat>, less: (nat, nat) -> bool) {
    forall k :: 0 <= k < |ids| ==> less(id, ids[k])
  }

  lemma AscendsFrom(id: nat, ids: seq<nat>, less: (nat, nat) -> bool)
    requires Ascends(ids, less) && ComesFirst(id, ids, less)
    ensures Ascends([id] + ids, less) && [] + ids == ids
  {
  }

  lemma HeadPrecedes(entries: seq<Entry>, view: map<nat, Record>, matches: Record -> bool, order: OrderBy)
    requires entries != [] && Ascends(entries, Order(order.direction))
    requires forall e :: e in entries ==> EntryOf(view, order.field, e)
    ensures ComesFirst(entries[0].recordId, RowIds(entries[1..], view, matches), IntegerOrder(view, order))
  {
    var head, tail := entries[0], entries[1..];
    var ids := RowIds(tail, view, matches);
    RowIdsHold(tail, view, matches);
    assert head in entries;
    forall k | 0 <= k < |ids| ensures IntegerOrder(view, order)(head.recordId, ids[k]) {
      assert ids[k] in ids;
      var i :| 0 <= i < |tail| && tail[i].recordId == ids[k];
      assert entries[i + 1] in entries && Order(order.direction)(entries[0], entries[i + 1]);
      BeforePrecedes(view, order, head, tail[i]);
    }
  }

  lemma EntitledIff(view: map<nat, Record>, ast: Ast, num: NumberTest, id: nat)
    requires ast.orderBy.Some?
    ensures var keys := KeysOf(view, ast.orderBy.value.field);
            Entitled(view, id, ast, num) <==> id in keys && Matcher(ast, num)(view[id])
  {
    if id in view && ast.orderBy.value.field in view[id] {
      var v := view[id][ast.orderBy.value.field];
      forall n ensures SortKey(v) == Some(n) <==> HoldsInteger(v, n) && I64_MIN <= n <= I64_MAX {
        SortKeyIff(v, n);
      }
      if SortKey(v).Some? {
        assert IntegerAt(view[id], ast.orderBy.value.field, SortKey(v).value);
      }
    }
  }

  /** The first rows of the ordered index, said of the integers that the records hold. */
  lemma TopRowsAreFirst(view: map<nat, Record>, ast: Ast, num: NumberTest) returns (ids: seq<nat>)
    requires Ordered(ast)
    ensures AreFirst(TopRows(view, ast, num), ids, view, ast, num)
  {
    var order, keys, matches := ast.orderBy.value, KeysOf(view, ast.orderBy.value.field), Matcher(ast, num);
    var entries := Arrange(EntriesOf(keys), Order(order.direction));
    Arranged(EntriesOf(keys), order.direction);
    var all := RowIds(entries, view, matches);
    RowIdsHold(entries, view, matches);
    RowIdsAscend(entries, view, matches, order);
    forall j, k | 0 <= j < k < |all| ensures Precedes(view, order, all[j], all[k]) {
      assert IntegerOrder(view, order)(all[j], all[k]);
    }
    forall id ensures Entitled(view, id, ast, num) <==> id in all {
      EntitledIff(view, ast, num, id);
      if id in keys && matches(view[id]) {
        assert Entry(keys[id], id) in entries;
      }
    }
    ids := Take(all, ast.limit.value);
    CutIsFirst(Rows(entries, view, matches), all, view, ast, num);
  }

  lemma CutIsFirst(rows: seq<Record>, all: seq<nat>, view: map<nat, Record>, ast: Ast, num: NumberTest)
    requires ast.orderBy.Some? && ast.limit.Some? && |rows| == |all|
    requires forall id :: Entitled(view, id, ast, num) <==> id in all
    requires forall k :: 0 <= k < |all| ==> all[k] in view && rows[k] == view[all[k]]
    requires forall j, k :: 0 <= j < k < |all| ==> Precedes(view, ast.orderBy.value, all[j], all[k])
    ensures AreFirst(Take(rows, ast.limit.value), Take(all, ast.limit.value), view, ast, num)
  {
    var ids := Take(all, ast.limit.value);
    forall k | 0 <= k < |ids| ensures Entitled(view, ids[k], ast, num) {
      assert all[k] in all;
    }
    assert forall j :: 0 <= j < |ids| ==> all[j] in ids;
    forall id, k | Entitled(view, id, ast, num) && id !in ids && 0 <= k < |ids|
      ensures Precedes(view, ast.orderBy.value, ids[k], id)
    {
      var j :| 0 <= j < |all| && all[j] == id;
    }
  }

  /** The rows of the ordered index, after the last step of a query. */
  method OrderedQueryRows(idx: SecondaryIndexes, view: map<nat, Record>, ast: Ast, num: NumberTest,
                          debug: Value -> string, ghost current: map<nat, Record>)
    returns (rows: Option<seq<Record>>)
    requires idx.Mirror(current)
    ensures rows.Some? <==> Ordered(ast) && HasRun(idx, ast.orderBy.value.field)
    ensures rows.Some? ==> Resorted(rows.value, ListedRows(current, view, ast, num), ast, debug)
    ensures rows.None? && Ordered(ast) && ast.orderBy.value.field in idx.sortFields ==>
              KeysOf(current, ast.orderBy.value.field) == map[]
  {
    var listed := SortIndexQueryRows(idx, view, ast, num, current);
    if listed.None? {
      return None;
    }
    ListedAtMost(current, view, ast, num);
    ResortedIff(listed.value, ast, debug);
    return Some(SortAndLimit(listed.value, ast, debug));
  }

  lemma ListedAtMost(current: map<nat, Record>, view: map<nat, Record>, ast: Ast, num: NumberTest)
    requires Ordered(ast)
    ensures |ListedRows(current, view, ast, num)| <= ast.limit.value
  {
  }

  // ----- Composite path ----------------------------------------------------------------------

  function FirstEq(wheres: seq<Where>): Option<Where> {
    if wheres == [] then None else if wheres[0].op == Eq then Some(wheres[0]) else FirstEq(wheres[1..])
  }

  /** `canonical_literal_key`; `litText` writes the literals that are not strings. */
  function KeyOfLiteral(lit: Literal, litText: Literal -> string): string {
    if lit.Text? then JsonText.LiteralKey(lit.s) else litText(lit)
  }

  /** The first `limit` matching rows of the bucket that the literal names. */
  ghost function BucketRows(idx: SecondaryIndexes, view: map<nat, Record>, ast: Ast, num: NumberTest, eq: Where,
                            litText: Literal -> string): seq<Record>
    requires Ordered(ast)
    reads idx
  {
    var bucket := Bucket(idx.CompositeOf((eq.field, ast.orderBy.value.field)), KeyOfLiteral(eq.value, litText));
    Take(Rows(Arrange(bucket, Order(ast.orderBy.value.direction)), view, Matcher(ast, num)), ast.limit.value)
  }

  /** The loop over a bucket: its matching rows, up to the limit. */
  method CollectRows(entries: seq<Entry>, view: map<nat, Record>, matches: Record -> bool, limit: nat)
    returns (out: seq<Record>)
    ensures out == Take(Rows(entries, view, matches), limit)
  {
    out := [];
    var i := 0;
    assert entries[0..] == entries;
    while i < |entries| && |out| < limit
      invariant 0 <= i <= |entries| && |out| <= limit
      invariant Rows(entries, view, matches) == out + Rows(entries[i..], view, matches)
    {
      ghost var later := Rows(entries[i + 1..], view, matches);
      assert entries[i..][1..] == entries[i + 1..];
      Regroup(out, RowOf(entries[i], view, matches), later);
      out := out + RowOf(entries[i], view, matches);
      i := i + 1;
    }
  }

  /** The composite path declines only where the bucket it would read is empty. */
  method CompositeSortIndexQueryRows(idx: SecondaryIndexes, view: map<nat, Record>, ast: Ast, num: NumberTest,
                                     litText: Literal -> string, ghost current: map<nat, Record>)
    returns (rows: Option<seq<Record>>)
    requires idx.Mirror(current)
    ensures rows.Some? ==> Bucketed(idx, ast)
    ensures ast.orderBy.None? || ast.limit.None? || ast.limit.value == 0 || ast.includes != [] ==> rows.None?
    ensures rows.None? && Bucketed(idx, ast) ==>
              BucketRows(idx, view, ast, num, FirstEq(ast.wheres).value, litText) == []
    ensures rows.Some? ==> rows.value == BucketRows(idx, view, ast, num, FirstEq(ast.wheres).value, litText)
    ensures Bucketed(idx, ast) && view == current
            && KeyServes(view, ast, num, FirstEq(ast.wheres).value, litText, idx.toJson)
            ==> TopRows(view, ast, num) == if rows.Some? then rows.value else []
  {
    if !Ordered(ast) || FirstEq(ast.wheres).None? {
      return None;
    }
    var order, eq := ast.orderBy.value, FirstEq(ast.wheres).value;
    var def := (eq.field, order.field);
    var key := KeyOfLiteral(eq.value, litText);
    if Bucketed(idx, ast) {
      BucketServes(idx, view, ast, num, litText, current);
    }
    if def !in idx.composites || key !in idx.composites[def].buckets {
      NothingArranged(order.direction);
      return None;
    }
    var entries := InOrder(idx.composites[def].buckets[key], order.direction);
    var out := CollectRows(entries, view, Matcher(ast, num), ast.limit.value);
    return Some(out);
  }

  lemma NothingArranged(dir: Direction)
    ensures Arrange({}, Order(dir)) == []
  {
    assert forall m: Entry :: !IsLeast(m, {}, Order(dir));
  }

  /** An ordered query with an equality clause, and an index for that pair of fields. */
  predicate Bucketed(idx: SecondaryIndexes, ast: Ast)
    reads idx
  {
    && Ordered(ast) && FirstEq(ast.wheres).Some?
    && (FirstEq(ast.wheres).value.field, ast.orderBy.value.field) in idx.compositeDefs
  }

  lemma BucketServes(idx: SecondaryIndexes, view: map<nat, Record>, ast: Ast, num: NumberTest,
                     litText: Literal -> string, current: map<nat, Record>)
    requires idx.Mirror(current) && Bucketed(idx, ast)
    ensures view == current && KeyServes(view, ast, num, FirstEq(ast.wheres).value, litText, idx.toJson) ==>
              TopRows(view, ast, num) == BucketRows(idx, view, ast, num, FirstEq(ast.wheres).value, litText)
  {
    var eq := FirstEq(ast.wheres).value;
    var def := (eq.field, ast.orderBy.value.field);
    assert CompositeMirrors(idx.CompositeOf(def), CompositeKeysOf(current, def, idx.toJson));
    if view == current && KeyServes(view, ast, num, eq, litText, idx.toJson) {
      BucketHoldsMatches(idx.CompositeOf(def), view, ast, num, eq, litText, idx.toJson);
    }
  }

  /** Every record the query accepts is filed in the bucket the literal names. */
  ghost predicate KeyServes(view: map<nat, Record>, ast: Ast, num: NumberTest, eq: Where, litText: Literal -> string,
                            toJson: Value -> string)
  {
    forall id :: id in MatchingIds(view, ast, num) ==>
      eq.field in view[id] && toJson(view[id][eq.field]) == KeyOfLiteral(eq.value, litText)
  }

  lemma BucketHoldsMatches(run: CompositeRun, view: map<nat, Record>, ast: Ast, num: NumberTest, eq: Where,
                           litText: Literal -> string, toJson: Value -> string)
    requires Ordered(ast) && KeyServes(view, ast, num, eq, litText, toJson)
    requires CompositeMirrors(run, CompositeKeysOf(view, (eq.field, ast.orderBy.value.field), toJson))
    ensures Rows(Arrange(Bucket(run, KeyOfLiteral(eq.value, litText)), Order(ast.orderBy.value.direction)), view,
                 Matcher(ast, num))
         == Rows(Arrange(EntriesOf(KeysOf(view, ast.orderBy.value.field)), Order(ast.orderBy.value.direction)), view,
                 Matcher(ast, num))
  {
    var field := ast.orderBy.value.field;
    var bucket, all := Bucket(run, KeyOfLiteral(eq.value, litText)), EntriesOf(KeysOf(view, field));
    forall e | e in bucket ensures e in all {
      assert CompositeKey(view[e.recordId], (eq.field, field), toJson).Some?;
    }
    forall e | e in all && e !in bucket ensures RowOf(e, view, Matcher(ast, num)) == [] {
      assert e.recordId in MatchingIds(view, ast, num) ==>
        CompositeKey(view[e.recordId], (eq.field, field), toJson) == Some((KeyOfLiteral(eq.value, litText), e.key));
    }
    RowsOfSubset(bucket, all, ast.orderBy.value.direction, view, Matcher(ast, num));
  }

  /** Entries that give no row may be left out of a listing. */
  lemma {:induction false} RowsOfSubset(s: set<Entry>, t: set<Entry>, dir: Direction, view: map<nat, Record>,
                                        matches: Record -> bool)
    requires s <= t && forall e :: e in t && e !in s ==> RowOf(e, view, matches) == []
    ensures Rows(Arrange(s, Order(dir)), view, matches) == Rows(Arrange(t, Order(dir)), view, matches)
    decreases |t|
  {
    if t == {} {
      assert s == t;
    } else {
      OrderIsTotal(dir);
      LeastExists(t, Order(dir));
      var m :| IsLeast(m, t, Order(dir));
      PendingPop(t, m, dir, view, matches);
      if m in s {
        PendingPop(s, m, dir, view, matches);
        RowsOfSubset(s - {m}, t - {m}, dir, view, matches);
      } else {
        RowsOfSubset(s, t - {m}, dir, view, matches);
      }
    }
  }

  /** A string literal that needs no escaping names the bucket of all records it matches. */
  lemma CleanLiteralServes(view: map<nat, Record>, ast: Ast, num: NumberTest, k: nat, litText: Literal -> string,
                           toJson: Value -> string)
    requires WritesStrings(toJson)
    requires k < |ast.wheres| && ast.wheres[k].op == Eq && ast.wheres[k].value.Text?
    requires forall i :: 0 <= i < |ast.wheres[k].value.s| ==> JsonText.Clean(ast.wheres[k].value.s[i])
    ensures KeyServes(view, ast, num, ast.wheres[k], litText, toJson)
  {
    JsonText.KeysAgreeIffClean(ast.wheres[k].value.s);
    forall id | id in MatchingIds(view, ast, num)
      ensures ast.wheres[k].field in view[id]
           && toJson(view[id][ast.wheres[k].field]) == KeyOfLiteral(ast.wheres[k].value, litText)
    {
      assert LiteralMatches(view[id][ast.wheres[k].field], Eq, ast.wheres[k].value, num);
    }
  }

  /** The clause taken is the first equality of the query; none is taken iff there is none. */
  lemma {:induction false} FirstEqIs(wheres: seq<Where>)
    ensures match FirstEq(wheres)
            case None => forall k :: 0 <= k < |wheres| ==> wheres[k].op != Eq
            case Some(w) => exists k :: 0 <= k < |wheres| && wheres[k] == w && w.op == Eq
                                        && forall j :: 0 <= j < k ==> wheres[j].op != Eq
  {
    if wheres != [] && wheres[0].op != Eq {
      var rest := wheres[1..];
      FirstEqIs(rest);
      if FirstEq(rest).Some? {
        var k :| 0 <= k < |rest| && rest[k] == FirstEq(rest).value && rest[k].op == Eq
                 && forall j :: 0 <= j < k ==> rest[j].op != Eq;
        assert wheres[k + 1] == rest[k] && forall j :: 0 < j < k + 1 ==> wheres[j] == rest[j - 1];
      }
    }
  }

  /** An ordered query whose first equality is with a text that needs no escaping: its bucket holds all rows. */
  lemma CleanFirstEqServes(view: map<nat, Record>, ast: Ast, num: NumberTest, k: nat, litText: Literal -> string,
                           toJson: Value -> string)
    requires WritesStrings(toJson)
    requires k < |ast.wheres| && ast.wheres[k].op == Eq && forall j :: 0 <= j < k ==> ast.wheres[j].op != Eq
    requires ast.wheres[k].value.Text?
    requires forall i :: 0 <= i < |ast.wheres[k].value.s| ==> JsonText.Clean(ast.wheres[k].value.s[i])
    ensures FirstEq(ast.wheres) == Some(ast.wheres[k])
    ensures KeyServes(view, ast, num, FirstEq(ast.wheres).value, litText, toJson)
  {
    FirstEqIs(ast.wheres);
    CleanLiteralServes(view, ast, num, k, litText, toJson);
  }

  predicate CleanText(lit: Literal) {
    lit.Text? && forall i :: 0 <= i < |lit.s| ==> JsonText.Clean(lit.s[i])
  }

  /** A text literal names the bucket of all records it matches iff it needs no escaping, or there are none. */
  lemma KeyServesIff(view: map<nat, Record>, ast: Ast, num: NumberTest, k: nat, litText: Literal -> string,
                     toJson: Value -> string)
    requires WritesStrings(toJson)
    requires k < |ast.wheres| && ast.wheres[k].op == Eq && ast.wheres[k].value.Text?
    ensures KeyServes(view, ast, num, ast.wheres[k], litText, toJson)
            <==> CleanText(ast.wheres[k].value) || MatchingIds(view, ast, num) == {}
  {
    var w := ast.wheres[k];
    if CleanText(w.value) {
      CleanLiteralServes(view, ast, num, k, litText, toJson);
    } else if id :| id in MatchingIds(view, ast, num) {
      assert LiteralMatches(view[id][w.field], Eq, w.value, num);
      JsonText.KeysAgreeIffClean(w.value.s);
    }
  }

  /** Where it needs escaping the bucket it names gives no row at all. */
  lemma UncleanBucketIsLost(idx: SecondaryIndexes, view: map<nat, Record>, ast: Ast, num: NumberTest,
                            litText: Literal -> string)
    requires idx.Mirror(view) && Bucketed(idx, ast) && WritesStrings(idx.toJson)
    requires FirstEq(ast.wheres).value.value.Text? && !CleanText(FirstEq(ast.wheres).value.value)
    ensures BucketRows(idx, view, ast, num, FirstEq(ast.wheres).value, litText) == []
  {
    var eq, dir := FirstEq(ast.wheres).value, ast.orderBy.value.direction;
    var def := (eq.field, ast.orderBy.value.field);
    var bucket := Bucket(idx.CompositeOf(def), KeyOfLiteral(eq.value, litText));
    assert CompositeMirrors(idx.CompositeOf(def), CompositeKeysOf(view, def, idx.toJson));
    FirstEqIs(ast.wheres);
    JsonText.KeysAgreeIffClean(eq.value.s);
    Arranged(bucket, dir);
    forall e | e in Arrange(bucket, Order(dir)) ensures RowOf(e, view, Matcher(ast, num)) == [] {
      assert CompositeKey(view[e.recordId], def, idx.toJson) == Some((KeyOfLiteral(eq.value, litText), e.key));
      UncleanNeverMatches(view[e.recordId], ast, num, eq, idx.toJson);
    }
    NoRowsListed(Arrange(bucket, Order(dir)), view, Matcher(ast, num));
  }

  /** A record filed under the unescaped literal holds something else. */
  lemma UncleanNeverMatches(r: Record, ast: Ast, num: NumberTest, eq: Where, toJson: Value -> string)
    requires WritesStrings(toJson) && eq in ast.wheres && eq.op == Eq && eq.value.Text? && !CleanText(eq.value)
    requires eq.field in r && toJson(r[eq.field]) == JsonText.LiteralKey(eq.value.s)
    ensures !MatchesRecord(r, ast.wheres, num)
  {
    JsonText.KeysAgreeIffClean(eq.value.s);
    var k :| 0 <= k < |ast.wheres| && ast.wheres[k] == eq;
    assert !LiteralMatches(r[eq.field], Eq, eq.value, num);
  }

  lemma {:induction false} NoRowsListed(entries: seq<Entry>, view: map<nat, Record>, matches: Record -> bool)
    requires forall e :: e in entries ==> RowOf(e, view, matches) == []
    ensures Rows(entries, view, matches) == []
    decreases |entries|
  {
    if entries == [] {
    } else {
      assert entries[0] in entries && forall e :: e in entries[1..] ==> e in entries;
      NoRowsListed(entries[1..], view, matches);
    }
  }
}
