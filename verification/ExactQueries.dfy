/** String equalities answered by intersecting posting lists, and exactly when that finds every match. */
module ExactQueries {
  import opened Wrappers
  import opened Json
  import opened Indexes
  import opened Query
  import JsonText

  type Postings = map<string, map<string, set<nat>>>

  predicate StringEq(w: Where) {
    w.op == Eq && w.value.Text?
  }

  /** A literal that is looked up under the very key its equal values are filed under. */
  predicate CleanText(w: Where) {
    StringEq(w) && forall i :: 0 <= i < |w.value.s| ==> JsonText.Clean(w.value.s[i])
  }

  function PairOf(w: Where): Pair
    requires StringEq(w)
  {
    (w.field, JsonText.LiteralKey(w.value.s))
  }

  predicate Posted(ids: Postings, p: Pair) {
    p.0 in ids && p.1 in ids[p.0]
  }

  /** Nothing but string equalities, each with a posting list for its literal. */
  predicate Answerable(ids: Postings, wheres: seq<Where>) {
    wheres != [] && forall k :: 0 <= k < |wheres| ==> StringEq(wheres[k]) && Posted(ids, PairOf(wheres[k]))
  }

  /** The ids in the posting lists of all clauses. */
  function LookedUp(ids: Postings, wheres: seq<Where>): (found: set<nat>)
    requires Answerable(ids, wheres)
    ensures forall id :: id in found <==> forall k :: 0 <= k < |wheres| ==> id in IdsAt(ids, PairOf(wheres[k]))
  {
    var n := |wheres| - 1;
    if n == 0 then IdsAt(ids, PairOf(wheres[0]))
    else LookedUp(ids, wheres[..n]) * IdsAt(ids, PairOf(wheres[n]))
  }

  /** The rows of these ids that satisfy the query, in no particular order. */
  ghost function Accepted(ids: set<nat>, view: map<nat, Record>, ast: Ast, num: NumberTest): map<nat, Record> {
    map id | id in ids && id in MatchingIds(view, ast, num) :: view[id]
  }

  /** The path answers iff every clause is a string equality with a posting list, even an empty one. */
  method ExactStringIndexQueryRows(idx: SecondaryIndexes, view: map<nat, Record>, ast: Ast, num: NumberTest)
    returns (rows: Option<map<nat, Record>>)
    ensures rows.Some? <==> Answerable(idx.exact.ids, ast.wheres)
    ensures rows.Some? ==> rows.value == Accepted(LookedUp(idx.exact.ids, ast.wheres), view, ast, num)
  {
    var candidates := IntersectPostings(idx.exact.ids, ast.wheres);
    if candidates.None? {
      return None;
    }
    rows := Some(map id | id in candidates.value && id in view && MatchesRecord(view[id], ast.wheres, num) :: view[id]);
  }

  method IntersectPostings(ids: Postings, wheres: seq<Where>) returns (candidates: Option<set<nat>>)
    ensures candidates.Some? <==> Answerable(ids, wheres)
    ensures candidates.Some? ==> candidates.value == LookedUp(ids, wheres)
  {
    candidates := None;
    for i := 0 to |wheres|
      invariant forall k :: 0 <= k < i ==> StringEq(wheres[k]) && Posted(ids, PairOf(wheres[k]))
      invariant candidates.None? <==> i == 0
      invariant candidates.Some? ==> Answerable(ids, wheres[..i]) && candidates.value == LookedUp(ids, wheres[..i])
    {
      var w := wheres[i];
      if !StringEq(w) {
        return None;
      }
      var p := PairOf(w);
      if p.0 !in ids || p.1 !in ids[p.0] {
        return None;
      }
      assert wheres[..i + 1][..i] == wheres[..i];
      candidates := Some(if candidates.None? then ids[p.0][p.1] else candidates.value * ids[p.0][p.1]);
    }
    assert wheres[..|wheres|] == wheres;
  }

  /**
   Where the path answers, it returns exactly the matching visible records iff every literal is clean
   or there is nothing to return: one literal that needs escaping loses every match.
   */
  lemma ExactPathCompleteIff(idx: SecondaryIndexes, view: map<nat, Record>, ast: Ast, num: NumberTest)
    requires idx.Mirror(view) && WritesStrings(idx.toJson) && Answerable(idx.exact.ids, ast.wheres)
    ensures var found := Accepted(LookedUp(idx.exact.ids, ast.wheres), view, ast, num);
            && (found.Keys == MatchingIds(view, ast, num) || found == map[])
            && (found.Keys == MatchingIds(view, ast, num) <==>
                  MatchingIds(view, ast, num) == {} || forall k :: 0 <= k < |ast.wheres| ==> CleanText(ast.wheres[k]))
  {
    if k :| 0 <= k < |ast.wheres| && !CleanText(ast.wheres[k]) {
      UncleanFindsNothing(idx, view, ast, num, k);
    } else {
      CleanFindsAll(idx, view, ast, num);
    }
  }

  lemma UncleanFindsNothing(idx: SecondaryIndexes, view: map<nat, Record>, ast: Ast, num: NumberTest, k: nat)
    requires idx.Mirror(view) && WritesStrings(idx.toJson) && Answerable(idx.exact.ids, ast.wheres)
    requires k < |ast.wheres| && !CleanText(ast.wheres[k])
    ensures Accepted(LookedUp(idx.exact.ids, ast.wheres), view, ast, num) == map[]
  {
    forall id | id in MatchingIds(view, ast, num) ensures id !in LookedUp(idx.exact.ids, ast.wheres) {
      MatchIsFiledIffClean(idx.exact, view, idx.exactFields, idx.toJson, ast, num, id, k);
    }
  }

  lemma CleanFindsAll(idx: SecondaryIndexes, view: map<nat, Record>, ast: Ast, num: NumberTest)
    requires idx.Mirror(view) && WritesStrings(idx.toJson) && Answerable(idx.exact.ids, ast.wheres)
    requires forall k :: 0 <= k < |ast.wheres| ==> CleanText(ast.wheres[k])
    ensures Accepted(LookedUp(idx.exact.ids, ast.wheres), view, ast, num).Keys == MatchingIds(view, ast, num)
  {
    forall id | id in MatchingIds(view, ast, num) ensures id in LookedUp(idx.exact.ids, ast.wheres) {
      forall k | 0 <= k < |ast.wheres| ensures id in IdsAt(idx.exact.ids, PairOf(ast.wheres[k])) {
        MatchIsFiledIffClean(idx.exact, view, idx.exactFields, idx.toJson, ast, num, id, k);
      }
    }
  }

  lemma MatchIsFiledIffClean(inv: Inverted, view: map<nat, Record>, fields: set<string>, toJson: Value -> string,
                             ast: Ast, num: NumberTest, id: nat, k: nat)
    requires Files(inv, ExactOf(view, fields, toJson)) && WritesStrings(toJson)
    requires k < |ast.wheres| && StringEq(ast.wheres[k]) && ast.wheres[k].field in fields
    requires id in MatchingIds(view, ast, num)
    ensures id in IdsAt(inv.ids, PairOf(ast.wheres[k])) <==> CleanText(ast.wheres[k])
  {
    var w := ast.wheres[k];
    var r := view[id];
    assert w.field in r && LiteralMatches(r[w.field], Eq, w.value, num);
    assert r[w.field] == String(w.value.s);
    JsonText.KeysAgreeIffClean(w.value.s);
    var want := ExactOf(view, fields, toJson);
    assert id in IdsAt(inv.ids, PairOf(w)) <==> Wanted(want, id, PairOf(w));
    assert (w.field, toJson(r[w.field])) in ExactPairs(r, fields, toJson);
  }

  // ----- An answer that loses its match ------------------------------------------------------

  const BACKSLASH_N := "\\n"

  /** One record holds a newline, the other a backslash and an `n`. */
  function NewlineAndBackslash(field: string): map<nat, Record> {
    map[1 := map[field := String("\n")], 2 := map[field := String(BACKSLASH_N)]]
  }

  /** The escaped newline is the unescaped literal, so the literal's posting list exists: the newline's. */
  lemma EscapedNewlineIsLiteral()
    ensures JsonText.LiteralKey(BACKSLASH_N) == JsonText.ValueKey("\n")
  {
    assert JsonText.Escape("\n"[1..]) == "";
    assert JsonText.EscapeChar('\n') == BACKSLASH_N;
  }

  /** Asked for the record with the backslash, the path answers, and returns nothing. */
  lemma ExactPathLosesItsMatch(idx: SecondaryIndexes, field: string, num: NumberTest)
    requires idx.Mirror(NewlineAndBackslash(field)) && WritesStrings(idx.toJson) && field in idx.exactFields
    ensures var view := NewlineAndBackslash(field);
            var ast := Ast([Where(field, Eq, Text(BACKSLASH_N))], [], None, None);
            && Answerable(idx.exact.ids, ast.wheres)
            && Accepted(LookedUp(idx.exact.ids, ast.wheres), view, ast, num) == map[]
            && MatchingIds(view, ast, num) == {2}
  {
    var view := NewlineAndBackslash(field);
    var w := Where(field, Eq, Text(BACKSLASH_N));
    var ast := Ast([w], [], None, None);
    EscapedNewlineIsLiteral();
    assert PairOf(w) in ExactPairs(view[1], idx.exactFields, idx.toJson);
    assert Wanted(ExactOf(view, idx.exactFields, idx.toJson), 1, PairOf(w));
    assert 1 in IdsAt(idx.exact.ids, PairOf(w));
    assert !JsonText.Clean(BACKSLASH_N[0]);
    OnlyBackslashMatches(field, num);
    ExactPathCompleteIff(idx, view, ast, num);
  }

  lemma OnlyBackslashMatches(field: string, num: NumberTest)
    ensures MatchingIds(NewlineAndBackslash(field), Ast([Where(field, Eq, Text(BACKSLASH_N))], [], None, None), num)
         == {2}
  {
    var view := NewlineAndBackslash(field);
    var wheres := [Where(field, Eq, Text(BACKSLASH_N))];
    assert wheres[0].field == field && !LiteralMatches(view[1][field], Eq, wheres[0].value, num);
    assert LiteralMatches(view[2][field], Eq, wheres[0].value, num);
    assert !MatchesRecord(view[1], wheres, num) && MatchesRecord(view[2], wheres, num);
  }
}
