/** The key order of the ordered index against the text order of a query's last step: exactly when they agree. */
module KeyOrders {
  import opened Wrappers
  import opened Json
  import opened Ordering
  import opened SortRuns
  import opened Indexes
  import opened Query
  import opened IndexQueries
  import Bytes
  import Sorting

  /** The field holds nothing but these values. */
  ghost predicate FromPool(view: map<nat, Record>, field: string, pool: iset<Value>) {
    forall id :: id in view && field in view[id] ==> view[id][field] in pool
  }

  /** Two values, not in descending order as keys, whose texts are. */
  predicate Clash(x: Value, y: Value, debug: Value -> string) {
    && SortKey(x).Some? && SortKey(y).Some? && SortKey(x).value <= SortKey(y).value
    && Bytes.TextLess(debug(y), debug(x))
  }

  ghost predicate ClashFree(pool: iset<Value>, debug: Value -> string) {
    forall x, y :: x in pool && y in pool ==> !Clash(x, y, debug)
  }

  /** The query gives the rows of the index in the index's own order. */
  ghost predicate KeepsKeyOrder(view: map<nat, Record>, ast: Ast, num: NumberTest, debug: Value -> string)
    requires Ordered(ast)
  {
    SortAndLimit(TopRows(view, ast, num), ast, debug) == TopRows(view, ast, num)
  }

  /**
   Over all states whose values of the order field come from a pool, all conditions, limits and
   directions: ordered queries come back in key order iff no two values of the pool clash.
   */
  lemma KeyOrderIff(pool: iset<Value>, field: string, num: NumberTest, debug: Value -> string)
    ensures (forall view: map<nat, Record>, ast: Ast ::
              Ordered(ast) && ast.orderBy.value.field == field && FromPool(view, field, pool) ==>
                KeepsKeyOrder(view, ast, num, debug))
            <==> ClashFree(pool, debug)
  {
    if ClashFree(pool, debug) {
      forall view: map<nat, Record>, ast: Ast
        | Ordered(ast) && ast.orderBy.value.field == field && FromPool(view, field, pool)
        ensures KeepsKeyOrder(view, ast, num, debug)
      {
        KeyOrderKept(view, ast, pool, num, debug);
      }
    } else {
      var x, y :| x in pool && y in pool && Clash(x, y, debug);
      ClashReorders(x, y, field, num, debug);
      TwoFromPool(x, y, field, pool);
    }
  }

  lemma TwoFromPool(x: Value, y: Value, field: string, pool: iset<Value>)
    requires x in pool && y in pool
    ensures FromPool(Two(x, y, field), field, pool)
  {
  }

  // ----- Without clashes -----------------------------------------------------------------------

  lemma KeyOrderKept(view: map<nat, Record>, ast: Ast, pool: iset<Value>, num: NumberTest, debug: Value -> string)
    requires Ordered(ast) && FromPool(view, ast.orderBy.value.field, pool) && ClashFree(pool, debug)
    ensures KeepsKeyOrder(view, ast, num, debug)
  {
    var order := ast.orderBy.value;
    var entries := Arrange(EntriesOf(KeysOf(view, order.field)), Order(order.direction));
    Arranged(EntriesOf(KeysOf(view, order.field)), order.direction);
    RowsAscend(entries, view, order, Matcher(ast, num), pool, debug);
    Sorting.SortedAlready(TopRows(view, ast, num), RowOrder(order, debug));
  }

  /** The rows of entries in key order are in text order. */
  lemma {:induction false} RowsAscend(entries: seq<Entry>, view: map<nat, Record>, order: OrderBy,
                                      matches: Record -> bool, pool: iset<Value>, debug: Value -> string)
    requires FromPool(view, order.field, pool) && ClashFree(pool, debug)
    requires Ascends(entries, Order(order.direction))
    requires forall e :: e in entries ==> EntryOf(view, order.field, e)
    ensures Sorting.Ascending(Rows(entries, view, matches), RowOrder(order, debug))
    decreases |entries|
  {
    if entries == [] {
    } else {
      var head, tail := entries[0], entries[1..];
      var rows := Rows(tail, view, matches);
      assert head in entries && forall e :: e in tail ==> e in entries;
      RowsAscend(tail, view, order, matches, pool, debug);
      forall j | 0 <= j < |rows| ensures !RowOrder(order, debug)(rows[j], view[head.recordId]) {
        var i := RowWhere(tail, view, matches, j);
        assert Order(order.direction)(entries[0], entries[i + 1]);
        LaterNotLess(head, tail[i], view, order, pool, debug);
      }
    }
  }

  lemma LaterNotLess(a: Entry, b: Entry, view: map<nat, Record>, order: OrderBy, pool: iset<Value>,
                     debug: Value -> string)
    requires FromPool(view, order.field, pool) && ClashFree(pool, debug)
    requires EntryOf(view, order.field, a) && EntryOf(view, order.field, b) && Before(order.direction, a, b)
    ensures !RowOrder(order, debug)(view[b.recordId], view[a.recordId])
  {
    var x, y := view[a.recordId][order.field], view[b.recordId][order.field];
    assert !Clash(x, y, debug) && !Clash(y, x, debug);
  }

  lemma {:induction false} RowWhere(entries: seq<Entry>, view: map<nat, Record>, matches: Record -> bool, j: nat)
    returns (i: nat)
    requires j < |Rows(entries, view, matches)|
    ensures i < |entries| && entries[i].recordId in view && Rows(entries, view, matches)[j] == view[entries[i].recordId]
    decreases |entries|
  {
    var first := RowOf(entries[0], view, matches);
    if j < |first| {
      i := 0;
    } else {
      i := RowWhere(entries[1..], view, matches, j - |first|);
      i := i + 1;
    }
  }

  // ----- With one ------------------------------------------------------------------------------

  function Two(x: Value, y: Value, field: string): map<nat, Record> {
    map[1 := map[field := x], 2 := map[field := y]]
  }

  function ByField(field: string): Ast {
    Ast([], [], Some(OrderBy(field, Asc)), Some(2))
  }

  /** Two records whose values clash: the query turns them round. */
  lemma ClashReorders(x: Value, y: Value, field: string, num: NumberTest, debug: Value -> string)
    requires Clash(x, y, debug)
    ensures var view := Two(x, y, field);
            && TopRows(view, ByField(field), num) == [view[1], view[2]]
            && SortAndLimit([view[1], view[2]], ByField(field), debug) == [view[2], view[1]]
            && !KeepsKeyOrder(view, ByField(field), num, debug)
  {
    var view := Two(x, y, field);
    var a, b := Entry(SortKey(x).value, 1), Entry(SortKey(y).value, 2);
    KeysOfTwo(x, y, field);
    TwoArranged(KeysOf(view, field), a, b);
    RowsOfTwo(a, b, view, Matcher(ByField(field), num));
    SwappedPair(view[1], view[2], RowOrder(OrderBy(field, Asc), debug));
    SameFieldSameText(x, y, field, debug);
  }

  lemma SameFieldSameText(x: Value, y: Value, field: string, debug: Value -> string)
    requires Clash(x, y, debug)
    ensures Two(x, y, field)[1] != Two(x, y, field)[2]
  {
    Bytes.TextTotal(debug(x), debug(y));
    assert Two(x, y, field)[1][field] == x && Two(x, y, field)[2][field] == y;
  }

  lemma KeysOfTwo(x: Value, y: Value, field: string)
    requires SortKey(x).Some? && SortKey(y).Some?
    ensures KeysOf(Two(x, y, field), field) == map[1 := SortKey(x).value, 2 := SortKey(y).value]
  {
    assert KeysOf(Two(x, y, field), field).Keys == {1, 2};
  }

  lemma TwoArranged(keys: map<nat, int>, a: Entry, b: Entry)
    requires a.recordId == 1 && b.recordId == 2 && a.key <= b.key && keys == map[1 := a.key, 2 := b.key]
    ensures Arrange(EntriesOf(keys), Order(Asc)) == [a, b]
  {
    OrderIsTotal(Asc);
    ArrangeUnique([a, b], EntriesOf(keys), Order(Asc));
  }

  lemma RowsOfTwo(a: Entry, b: Entry, view: map<nat, Record>, matches: Record -> bool)
    ensures Rows([a, b], view, matches) == RowOf(a, view, matches) + RowOf(b, view, matches)
  {
    assert [a, b][1..] == [b] && [b][1..] == [];
    assert Rows([b], view, matches) == RowOf(b, view, matches) + [];
  }

  lemma SwappedPair(a: Record, b: Record, less: (Record, Record) -> bool)
    requires less(b, a)
    ensures Sorting.Sorted([a, b], less) == [b, a]
  {
    assert [a, b][..1] == [a] && [a][..0] == [];
    assert Sorting.Sorted([a], less) == [a];
    assert Sorting.Inserted([], b, less) == [b];
  }

  /** Nine and ten do. */
  lemma TextOrderIsNotKeyOrder(field: string, num: NumberTest, debug: Value -> string)
    requires debug(Number(PosInt(9))) == "Number(9)" && debug(Number(PosInt(10))) == "Number(10)"
    ensures var view := Two(Number(PosInt(9)), Number(PosInt(10)), field);
            && TopRows(view, ByField(field), num) == [view[1], view[2]]
            && SortAndLimit([view[1], view[2]], ByField(field), debug) == [view[2], view[1]]
  {
    var ten, nine := TenBeforeNine();
    ClashReorders(Number(PosInt(9)), Number(PosInt(10)), field, num, debug);
  }

  lemma TenBeforeNine() returns (ten: string, nine: string)
    ensures ten == "Number(10)" && nine == "Number(9)" && Bytes.TextLess(ten, nine)
  {
    assert "Number(10)" == "Number(" + "10)" && "Number(9)" == "Number(" + "9)";
    Bytes.Utf8Append("Number(", "10)");
    Bytes.Utf8Append("Number(", "9)");
    Bytes.LexCommonPrefix(Bytes.Utf8("Number("), Bytes.Utf8("10)"), Bytes.Utf8("9)"));
    assert Bytes.Utf8("10)") == Bytes.Utf8Char('1') + Bytes.Utf8("10)"[1..]);
    ten, nine := "Number(10)", "Number(9)";
    assert Bytes.Utf8("9)") == Bytes.Utf8Char('9') + Bytes.Utf8("9)"[1..]);
  }
}
