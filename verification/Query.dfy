/** The query AST and the row predicate every access path applies last. */
module Query {
  import opened Wrappers
  import opened Json
  import opened SortRuns
  import Bytes
  import Like
  import Sorting

  datatype WhereOp = Eq | Ne | Gt | Gte | Lt | Lte | LikeOp

  datatype Literal =
    | Text(s: string)
    | I64(i: int)
    | U64(u: nat)
    | F64(bits: nat)
    | Boolean(b: bool)

  datatype Where = Where(field: string, op: WhereOp, value: Literal)

  datatype OrderBy = OrderBy(field: string, direction: Direction)

  datatype Ast = Ast(wheres: seq<Where>, includes: seq<string>, orderBy: Option<OrderBy>, limit: Option<nat>)

  /** Comparison of a stored number with a numeric literal, which the engine does in `f64`. */
  type NumberTest = (Num, WhereOp, Literal) -> bool

  predicate TextMatches(s: string, op: WhereOp, q: string) {
    match op
    case Eq => s == q
    case Ne => s != q
    case LikeOp => Like.Means(s, q)
    case Gt => Bytes.LexLess(Bytes.Utf8(q), Bytes.Utf8(s))
    case Gte => !Bytes.LexLess(Bytes.Utf8(s), Bytes.Utf8(q))
    case Lt => Bytes.LexLess(Bytes.Utf8(s), Bytes.Utf8(q))
    case Lte => !Bytes.LexLess(Bytes.Utf8(q), Bytes.Utf8(s))
  }

  /** The UTF-8 of the two differs, and at the first difference the value has the greater byte, or more of them. */
  ghost predicate Exceeds(s: string, q: string) {
    exists k :: 0 <= k <= |Bytes.Utf8(q)| && Bytes.StepsDown(Bytes.Utf8(q), Bytes.Utf8(s), k)
  }

  /** What the comparisons of strings mean. */
  lemma ComparisonMeans(s: string, q: string)
    ensures TextMatches(s, Gt, q) <==> Exceeds(s, q)
    ensures TextMatches(s, Lt, q) <==> Exceeds(q, s)
    ensures TextMatches(s, Gte, q) <==> Exceeds(s, q) || s == q
    ensures TextMatches(s, Lte, q) <==> Exceeds(q, s) || s == q
    ensures TextMatches(s, Eq, q) <==> !Exceeds(s, q) && !Exceeds(q, s)
    ensures TextMatches(s, Ne, q) <==> Exceeds(s, q) || Exceeds(q, s)
    ensures !(Exceeds(s, q) && Exceeds(q, s))
  {
    Bytes.LexLessIff(Bytes.Utf8(q), Bytes.Utf8(s));
    Bytes.LexLessIff(Bytes.Utf8(s), Bytes.Utf8(q));
    Bytes.TextTotal(s, q);
  }

  predicate LiteralMatches(v: Value, op: WhereOp, lit: Literal, num: NumberTest) {
    match (v, lit)
    case (String(s), Text(q)) => TextMatches(s, op, q)
    case (Bool(b), Boolean(q)) => (op == Eq && b == q) || (op == Ne && b != q)
    case (Number(n), I64(_)) => num(n, op, lit)
    case (Number(n), U64(_)) => num(n, op, lit)
    case (Number(n), F64(_)) => num(n, op, lit)
    case _ => false
  }

  /** A truth value is equal to a literal or differs from it; it has no order. */
  lemma TruthMeans(b: bool, op: WhereOp, q: bool, num: NumberTest)
    ensures LiteralMatches(Bool(b), op, Boolean(q), num) <==> op == if b == q then Eq else Ne
  {
  }

  /** Values match literals of their own kind only. */
  lemma KindsMatch(v: Value, op: WhereOp, lit: Literal, num: NumberTest)
    requires LiteralMatches(v, op, lit, num)
    ensures (v.String? <==> lit.Text?) && (v.Bool? <==> lit.Boolean?)
    ensures v.Number? <==> lit.I64? || lit.U64? || lit.F64?
    ensures v.String? || v.Bool? || v.Number?
  {
  }

  /** The record has a text in the clause's field that stands to the literal as the operator asks. */
  ghost predicate Selects(w: Where, r: Record)
    requires w.value.Text?
  {
    && w.field in r && r[w.field].String?
    && var s, q := r[w.field].s, w.value.s;
       match w.op
       case Eq => s == q
       case Ne => s != q
       case Gt => Exceeds(s, q)
       case Gte => Exceeds(s, q) || s == q
       case Lt => Exceeds(q, s)
       case Lte => Exceeds(q, s) || s == q
       case LikeOp => Like.Means(s, q)
  }

  predicate MatchesRecord(r: Record, wheres: seq<Where>, num: NumberTest) {
    forall k | 0 <= k < |wheres| ::
      wheres[k].field in r && LiteralMatches(r[wheres[k].field], wheres[k].op, wheres[k].value, num)
  }

  function Matcher(ast: Ast, num: NumberTest): Record -> bool {
    r => MatchesRecord(r, ast.wheres, num)
  }

  /** The records of a view that satisfy the query. */
  ghost function MatchingIds(view: map<nat, Record>, ast: Ast, num: NumberTest): set<nat> {
    set id | id in view && MatchesRecord(view[id], ast.wheres, num)
  }

  /** Which records a single comparison with a text selects. */
  lemma TextClauseSelects(view: map<nat, Record>, ast: Ast, num: NumberTest, id: nat)
    requires |ast.wheres| == 1 && ast.wheres[0].value.Text?
    ensures id in MatchingIds(view, ast, num) <==> id in view && Selects(ast.wheres[0], view[id])
  {
    var w := ast.wheres[0];
    if id in view && w.field in view[id] && view[id][w.field].String? {
      ComparisonMeans(view[id][w.field].s, w.value.s);
      assert MatchesRecord(view[id], ast.wheres, num) <==> LiteralMatches(view[id][w.field], w.op, w.value, num);
    }
  }

  // ----- The last step of every query --------------------------------------------------------

  /** What rows are sorted by: the `Debug` text of the order field, of `Null` when there is none. */
  function OrderText(r: Record, field: string, debug: Value -> string): string {
    debug(if field in r then r[field] else Null)
  }

  function RowOrder(order: OrderBy, debug: Value -> string): (Record, Record) -> bool {
    (a: Record, b: Record) =>
      if order.direction == Asc then Bytes.TextLess(OrderText(a, order.field, debug), OrderText(b, order.field, debug))
      else Bytes.TextLess(OrderText(b, order.field, debug), OrderText(a, order.field, debug))
  }

  /** `apply_sort_and_limit`. */
  function SortAndLimit(rows: seq<Record>, ast: Ast, debug: Value -> string): seq<Record> {
    AtMost(if ast.orderBy.Some? then Sorting.Sorted(rows, RowOrder(ast.orderBy.value, debug)) else rows, ast.limit)
  }

  lemma RowOrderIsWeak(order: OrderBy, debug: Value -> string)
    ensures Sorting.WeakOrder(RowOrder(order, debug))
  {
    var less := RowOrder(order, debug);
    forall a, b ensures !(less(a, b) && less(b, a)) {
      Bytes.TextTotal(OrderText(a, order.field, debug), OrderText(b, order.field, debug));
    }
    forall a, b, c | !less(b, a) && !less(c, b) ensures !less(c, a) {
      var x, y := OrderText(a, order.field, debug), OrderText(b, order.field, debug);
      var z := OrderText(c, order.field, debug);
      if order.direction == Asc {
        Bytes.NotTextLess(x, y, z);
      } else {
        Bytes.NotTextLess(z, y, x);
      }
    }
  }

  /** A record without the order field stands where it would with a null there. */
  lemma MissingSortsAsNull(r: Record, x: Record, order: OrderBy, debug: Value -> string)
    requires order.field !in r
    ensures RowOrder(order, debug)(r, x) <==> RowOrder(order, debug)(r[order.field := Null], x)
    ensures RowOrder(order, debug)(x, r) <==> RowOrder(order, debug)(x, r[order.field := Null])
  {
  }

  /** `out` has the same rows, in the order of their texts; it is the same list iff that is in this order. */
  ghost predicate Resorted(out: seq<Record>, rows: seq<Record>, ast: Ast, debug: Value -> string)
    requires ast.orderBy.Some?
  {
    var less := RowOrder(ast.orderBy.value, debug);
    && multiset(out) == multiset(rows)
    && Sorting.Ascending(out, less)
    && (out == rows <==> Sorting.Ascending(rows, less))
  }

  /** The last step of a query on rows that are no more than its limit. */
  lemma ResortedIff(rows: seq<Record>, ast: Ast, debug: Value -> string)
    requires ast.orderBy.Some? && (ast.limit.Some? ==> |rows| <= ast.limit.value)
    ensures Resorted(SortAndLimit(rows, ast, debug), rows, ast, debug)
  {
    var less := RowOrder(ast.orderBy.value, debug);
    RowOrderIsWeak(ast.orderBy.value, debug);
    Sorting.SortedSpec(rows, less);
    assert SortAndLimit(rows, ast, debug) == Sorting.Sorted(rows, less);
    if Sorting.Ascending(rows, less) {
      Sorting.SortedAlready(rows, less);
    }
  }

  /** `out` is what of these rows comes first, `rest` the others. */
  ghost predicate KeptFirst(out: seq<Record>, rest: seq<Record>, rows: seq<Record>, ast: Ast, debug: Value -> string) {
    && |out| == (if ast.limit.Some? then Min(ast.limit.value, |rows|) else |rows|)
    && if ast.orderBy.None? then out + rest == rows
       else
         var less := RowOrder(ast.orderBy.value, debug);
         multiset(out) + multiset(rest) == multiset(rows) && Sorting.Ascending(out + rest, less)
  }

  /** The last step keeps as many rows as the limit allows, and no row it drops belongs before one it keeps. */
  lemma LastStepKeepsFirst(rows: seq<Record>, ast: Ast, debug: Value -> string) returns (rest: seq<Record>)
    ensures KeptFirst(SortAndLimit(rows, ast, debug), rest, rows, ast, debug)
  {
    var whole := if ast.orderBy.Some? then Sorting.Sorted(rows, RowOrder(ast.orderBy.value, debug)) else rows;
    if ast.orderBy.Some? {
      RowOrderIsWeak(ast.orderBy.value, debug);
      Sorting.SortedSpec(rows, RowOrder(ast.orderBy.value, debug));
    }
    var out := SortAndLimit(rows, ast, debug);
    rest := whole[|out|..];
    assert whole == out + rest;
  }
}
