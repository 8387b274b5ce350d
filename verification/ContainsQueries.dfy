/** `LIKE '%needle%'` by trigrams, and exactly when its cut-off loses rows. */
module ContainsQueries {
  import opened Wrappers
  import opened Json
  import opened Ordering
  import opened SortRuns
  import opened Indexes
  import opened Query
  import opened RowsById
  import opened PrefixQueries
  import Bytes
  import Like
  import Sorting
  import Trigrams

  function NeedleOf(ast: Ast): Option<string> {
    if SingleLike(ast) then Like.ContainsLiteral(ast.wheres[0].value.s) else None
  }

  predicate HasGram(view: map<nat, Record>, id: nat, field: string, gram: string) {
    id in view && field in view[id] && view[id][field].String? && InText(gram, view[id][field].s)
  }

  predicate InText(gram: string, text: string) {
    exists i | 0 <= i <= |text| - 3 :: Trigrams.Window(text, i) == gram
  }

  lemma InTextIsGram(gram: string, text: string)
    ensures InText(gram, text) <==> gram in Trigrams.Grams(text)
  {
  }

  /** Every record with a string in the field is filed under that string's trigrams, and nowhere else. */
  ghost predicate FilesGrams(lists: Lists, view: map<nat, Record>, field: string) {
    forall gram, id :: id in ListAt(lists, gram) <==> HasGram(view, id, field, gram)
  }

  lemma MirrorFilesGrams(idx: SecondaryIndexes, view: map<nat, Record>, field: string)
    requires idx.Mirror(view) && field in idx.exactFields
    ensures FilesGrams(ListsOf(idx.trigrams, field), view, field)
  {
    forall gram, id ensures id in ListAt(ListsOf(idx.trigrams, field), gram) <==> HasGram(view, id, field, gram) {
      assert id in IdsAt(idx.trigrams.ids, (field, gram))
         <==> Wanted(GramsOf(view, idx.exactFields), id, (field, gram));
      if id in view && field in view[id] && view[id][field].String? {
        InTextIsGram(gram, view[id][field].s);
      }
    }
  }

  /** The ids that have every trigram of the needle. */
  ghost function HaveGrams(lists: Lists, needle: string): (ids: set<nat>)
    requires |needle| >= 3
    ensures forall id :: id in ids <==> forall g :: g in Trigrams.Grams(needle) ==> id in ListAt(lists, g)
  {
    Trigrams.GramsEmptyIffShort(needle);
    var first :| first in Trigrams.Grams(needle);
    set id | id in ListAt(lists, first) && forall g :: g in Trigrams.Grams(needle) ==> id in ListAt(lists, g)
  }

  /** The candidates that are looked at: in order of id, eight for each row asked for. */
  ghost function LookedAt(lists: Lists, ast: Ast): seq<nat>
    requires NeedleOf(ast).Some? && |NeedleOf(ast).value| >= 3
  {
    AtMost(InIdOrder(HaveGrams(lists, NeedleOf(ast).value), Asc), CutOff(ast))
  }

  function CutOff(ast: Ast): Option<nat> {
    if ast.limit.Some? then Some(8 * ast.limit.value) else None
  }

  /**
   The path declines only where there is nothing to find, or the needle is shorter than a trigram;
   otherwise it gives the rows of the candidates looked at.
   */
  method ContainsStringIndexQueryRows(idx: SecondaryIndexes, view: map<nat, Record>, ast: Ast, num: NumberTest,
                                      ghost current: map<nat, Record>)
    returns (rows: Option<seq<Record>>)
    requires idx.Mirror(current)
    ensures |ast.wheres| != 1 || ast.includes != [] ==> rows.None?
    ensures rows.Some? ==>
              NeedleOf(ast).Some? && ast.wheres[0].field in idx.exactFields && |NeedleOf(ast).value| >= 3
    ensures rows.None? && NeedleOf(ast).Some? ==>
              ast.wheres[0].field in idx.exactFields && |NeedleOf(ast).value| >= 3 ==>
                MatchingIds(current, ast, num) == {}
    ensures rows.Some? ==>
              rows.value == IdRows(LookedAt(ListsOf(idx.trigrams, ast.wheres[0].field), ast), view, Matcher(ast, num))
  {
    if NeedleOf(ast).None? {
      return None;
    }
    var field, needle := ast.wheres[0].field, NeedleOf(ast).value;
    if field !in idx.exactFields {
      return None;
    }
    MirrorFilesGrams(idx, current, field);
    if field !in idx.trigrams.ids {
      NothingFiled(map[], current, ast, num);
      return None;
    }
    var lists := idx.trigrams.ids[field];
    var candidates := Trigrams.CandidateIdsForContains(lists, needle);
    if candidates.None? {
      NothingFiled(lists, current, ast, num);
      return None;
    }
    SameCandidates(lists, needle, candidates.value);
    var ids := SortIds(candidates.value, Asc);
    ghost var all := ids;
    assert all[..|all|] == all;
    if ast.limit.Some? && |ids| > 8 * ast.limit.value {
      ids := ids[..8 * ast.limit.value];
    }
    assert ids == AtMost(all, CutOff(ast));
    return Some(IdRows(ids, view, Matcher(ast, num)));
  }

  lemma SameCandidates(lists: Lists, needle: string, found: set<nat>)
    requires |needle| >= 3 && forall g :: g in Trigrams.Grams(needle) ==> g in lists
    requires forall id :: id in found <==> forall g :: g in Trigrams.Grams(needle) ==> id in lists[g]
    ensures found == HaveGrams(lists, needle)
  {
    forall id ensures id in found <==> id in HaveGrams(lists, needle) {
      assert forall g :: g in Trigrams.Grams(needle) ==> ListAt(lists, g) == lists[g];
    }
  }

  lemma MatchesContain(view: map<nat, Record>, ast: Ast, num: NumberTest, id: nat)
    requires NeedleOf(ast).Some?
    ensures var field := ast.wheres[0].field;
            id in MatchingIds(view, ast, num) <==>
              id in view && field in view[id] && view[id][field].String?
              && Like.Contains(view[id][field].s, NeedleOf(ast).value)
  {
    var w := ast.wheres[0];
    if id in view && w.field in view[id] && view[id][w.field].String? {
      Like.ContainsShortcut(view[id][w.field].s, w.value.s);
      assert MatchesRecord(view[id], ast.wheres, num) <==> LiteralMatches(view[id][w.field], LikeOp, w.value, num);
    }
  }

  lemma MatchHasGram(lists: Lists, view: map<nat, Record>, ast: Ast, num: NumberTest, id: nat, gram: string)
    requires NeedleOf(ast).Some? && FilesGrams(lists, view, ast.wheres[0].field)
    requires id in MatchingIds(view, ast, num) && gram in Trigrams.Grams(NeedleOf(ast).value)
    ensures id in ListAt(lists, gram)
  {
    MatchesContain(view, ast, num, id);
    var text := view[id][ast.wheres[0].field].s;
    Trigrams.ContainedGrams(text, NeedleOf(ast).value);
    InTextIsGram(gram, text);
    assert HasGram(view, id, ast.wheres[0].field, gram);
  }

  /** Trigram intersection never drops a match. */
  lemma GramsHoldMatches(lists: Lists, view: map<nat, Record>, ast: Ast, num: NumberTest)
    requires NeedleOf(ast).Some? && |NeedleOf(ast).value| >= 3 && FilesGrams(lists, view, ast.wheres[0].field)
    ensures MatchingIds(view, ast, num) <= HaveGrams(lists, NeedleOf(ast).value)
  {
    forall id, gram | id in MatchingIds(view, ast, num) && gram in Trigrams.Grams(NeedleOf(ast).value)
      ensures id in ListAt(lists, gram)
    {
      MatchHasGram(lists, view, ast, num, id, gram);
    }
  }

  /** A trigram without a posting list is in no record. */
  lemma NothingFiled(lists: Lists, view: map<nat, Record>, ast: Ast, num: NumberTest)
    requires NeedleOf(ast).Some? && FilesGrams(lists, view, ast.wheres[0].field)
    ensures |NeedleOf(ast).value| >= 3 && (exists g :: g in Trigrams.Grams(NeedleOf(ast).value) && g !in lists) ==>
              MatchingIds(view, ast, num) == {}
    ensures |NeedleOf(ast).value| >= 3 && lists == map[] ==> MatchingIds(view, ast, num) == {}
  {
    var needle := NeedleOf(ast).value;
    Trigrams.GramsEmptyIffShort(needle);
    if |needle| >= 3 && (lists == map[] || exists g :: g in Trigrams.Grams(needle) && g !in lists) {
      var g :| g in Trigrams.Grams(needle) && g !in lists;
      forall id | id in MatchingIds(view, ast, num) ensures false {
        MatchHasGram(lists, view, ast, num, id, g);
      }
    }
  }

  // ----- The cut-off -------------------------------------------------------------------------

  /** What the query returns in the end. */
  ghost function Answer(lists: Lists, view: map<nat, Record>, ast: Ast, num: NumberTest, debug: Value -> string)
    : seq<Record>
    requires NeedleOf(ast).Some? && |NeedleOf(ast).value| >= 3
  {
    SortAndLimit(IdRows(LookedAt(lists, ast), view, Matcher(ast, num)), ast, debug)
  }

  /** What it returns when it looks at every record. */
  ghost function FullAnswer(view: map<nat, Record>, ast: Ast, num: NumberTest, debug: Value -> string): seq<Record> {
    SortAndLimit(IdRows(InIdOrder(MatchingIds(view, ast, num), Asc), view, Matcher(ast, num)), ast, debug)
  }

  /** Without a limit, or within eight candidates a row, nothing is lost, whatever the order asked for. */
  lemma WithinCutOff(lists: Lists, view: map<nat, Record>, ast: Ast, num: NumberTest, debug: Value -> string)
    requires NeedleOf(ast).Some? && |NeedleOf(ast).value| >= 3 && FilesGrams(lists, view, ast.wheres[0].field)
    requires ast.limit.None? || |HaveGrams(lists, NeedleOf(ast).value)| <= 8 * ast.limit.value
    ensures Answer(lists, view, ast, num, debug) == FullAnswer(view, ast, num, debug)
  {
    var all, matching := HaveGrams(lists, NeedleOf(ast).value), MatchingIds(view, ast, num);
    GramsHoldMatches(lists, view, ast, num);
    IdsArranged(all, Asc);
    assert LookedAt(lists, ast) == InIdOrder(all, Asc);
    IdRowsOfSubset(matching, all, Asc, view, Matcher(ast, num));
  }

  /**
   Over all states and limits: for queries with this needle and this order the path gives what looking
   at every record gives iff the needle is a single trigram and no order is asked for. (`debug` tells
   strings apart.)
   */
  lemma ContainsPathExactIff(needle: string, order: Option<OrderBy>, num: NumberTest, debug: Value -> string)
    requires |needle| >= 3 && Like.Literal(needle)
    requires forall s, t :: debug(String(s)) == debug(String(t)) ==> s == t
    ensures (forall lists: Lists, view: map<nat, Record>, ast: Ast ::
              NeedleOf(ast) == Some(needle) && ast.orderBy == order && FilesGrams(lists, view, ast.wheres[0].field) ==>
                Answer(lists, view, ast, num, debug) == FullAnswer(view, ast, num, debug))
            <==> |needle| == 3 && order.None?
  {
    if |needle| == 3 && order.None? {
      forall lists: Lists, view: map<nat, Record>, ast: Ast
        | NeedleOf(ast) == Some(needle) && ast.orderBy == order && FilesGrams(lists, view, ast.wheres[0].field)
        ensures Answer(lists, view, ast, num, debug) == FullAnswer(view, ast, num, debug)
      {
        OneGramIsExact(lists, view, ast, num, debug);
      }
    } else if order.Some? {
      CutOffLosesTheFirst(needle, order.value, num, debug);
    } else {
      CutOffLosesTheMatch(needle, "", num, debug);
    }
  }

  // ----- A needle of three characters --------------------------------------------------------

  lemma OneGramIsExact(lists: Lists, view: map<nat, Record>, ast: Ast, num: NumberTest, debug: Value -> string)
    requires NeedleOf(ast).Some? && |NeedleOf(ast).value| == 3 && FilesGrams(lists, view, ast.wheres[0].field)
    requires ast.orderBy.None?
    ensures Answer(lists, view, ast, num, debug) == FullAnswer(view, ast, num, debug)
  {
    var matching := MatchingIds(view, ast, num);
    var ids := InIdOrder(matching, Asc);
    GramIsMatch(lists, view, ast, num);
    IdsArranged(matching, Asc);
    MatchRows(ids, ast.limit, view, ast, num);
    MatchRows(LookedAt(lists, ast), ast.limit, view, ast, num);
    assert AtMost(AtMost(ids, CutOff(ast)), ast.limit) == AtMost(ids, ast.limit);
  }

  /** A text has the one trigram iff it contains the needle. */
  lemma GramIsMatch(lists: Lists, view: map<nat, Record>, ast: Ast, num: NumberTest)
    requires NeedleOf(ast).Some? && |NeedleOf(ast).value| == 3 && FilesGrams(lists, view, ast.wheres[0].field)
    ensures HaveGrams(lists, NeedleOf(ast).value) == MatchingIds(view, ast, num)
  {
    var needle, field := NeedleOf(ast).value, ast.wheres[0].field;
    GramsHoldMatches(lists, view, ast, num);
    assert Trigrams.Window(needle, 0) == needle;
    forall id | id in HaveGrams(lists, needle) ensures id in MatchingIds(view, ast, num) {
      assert needle in Trigrams.Grams(needle);
      assert HasGram(view, id, field, needle);
      var i :| 0 <= i <= |view[id][field].s| - 3 && Trigrams.Window(view[id][field].s, i) == needle;
      assert needle <= view[id][field].s[i..];
      MatchesContain(view, ast, num, id);
    }
  }

  // ----- Eight records in front of a ninth ---------------------------------------------------

  function Ids(n: nat): (ids: set<nat>)
    ensures forall id :: id in ids <==> 1 <= id <= n
  {
    if n == 0 then {} else Ids(n - 1) + {n}
  }

  lemma IdsInOrder(n: nat)
    ensures InIdOrder(Ids(n), Asc) == seq(n, i => i + 1)
  {
    var q: seq<nat> := seq(n, i => i + 1);
    forall id: nat | id in Ids(n) ensures id in q {
      assert q[id - 1] == id;
    }
    IdsUnique(q, Ids(n), Asc);
  }

  /** A record with this text in the searched field, and in the field the order is by. */
  function TextRecord(text: string, field: string, sortBy: string): Record {
    map[field := String(text)][sortBy := String(text)]
  }

  /** Eight records with one text, and after them one with another. */
  function EightAndOne(text: string, last: string, field: string, sortBy: string): map<nat, Record> {
    map id | id in Ids(9) :: TextRecord(if id == 9 then last else text, field, sortBy)
  }

  ghost function GramLists(text: string, last: string): Lists {
    map gram | gram in Trigrams.Grams(text) + Trigrams.Grams(last) ::
      set id | id in Ids(9) && gram in Trigrams.Grams(if id == 9 then last else text)
  }

  lemma NineFiled(text: string, last: string, field: string, sortBy: string)
    ensures FilesGrams(GramLists(text, last), EightAndOne(text, last, field, sortBy), field)
  {
    var lists, view := GramLists(text, last), EightAndOne(text, last, field, sortBy);
    forall gram, id ensures id in ListAt(lists, gram) <==> HasGram(view, id, field, gram) {
      if id in Ids(9) {
        InTextIsGram(gram, if id == 9 then last else text);
        assert view[id][field] == String(if id == 9 then last else text);
      }
    }
  }

  /** The first row with the needle, in some order. */
  function OneWith(needle: string, field: string, order: Option<OrderBy>): Ast {
    Ast([Where(field, LikeOp, Text("%" + needle + "%"))], [], order, Some(1))
  }

  lemma NeedleRead(needle: string, field: string, order: Option<OrderBy>)
    requires needle != "" && Like.Literal(needle)
    ensures NeedleOf(OneWith(needle, field, order)) == Some(needle)
  {
    var pattern := "%" + needle + "%";
    assert pattern[1..|pattern| - 1] == needle;
    Like.ContainsShortcut("", pattern);
  }

  /** Where all nine have the needle's trigrams, the path looks at the first eight. */
  lemma EightLookedAt(needle: string, text: string, last: string, field: string, order: Option<OrderBy>)
    requires |needle| >= 3 && NeedleOf(OneWith(needle, field, order)) == Some(needle)
    requires Trigrams.Grams(needle) <= Trigrams.Grams(text) && Trigrams.Grams(needle) <= Trigrams.Grams(last)
    ensures LookedAt(GramLists(text, last), OneWith(needle, field, order)) == InIdOrder(Ids(8), Asc)
  {
    AllNineLookedUp(needle, text, last);
    FirstEight();
  }

  lemma AllNineLookedUp(needle: string, text: string, last: string)
    requires |needle| >= 3
    requires Trigrams.Grams(needle) <= Trigrams.Grams(text) && Trigrams.Grams(needle) <= Trigrams.Grams(last)
    ensures HaveGrams(GramLists(text, last), needle) == Ids(9)
  {
    var lists := GramLists(text, last);
    Trigrams.GramsEmptyIffShort(needle);
    var gram :| gram in Trigrams.Grams(needle);
    forall g | g in Trigrams.Grams(needle) ensures ListAt(lists, g) == Ids(9) {
      assert g in lists;
    }
  }

  lemma FirstEight()
    ensures Take(InIdOrder(Ids(9), Asc), 8) == InIdOrder(Ids(8), Asc)
  {
    IdsInOrder(9);
    IdsInOrder(8);
  }

  // ----- A needle of more than three ---------------------------------------------------------

  /** A character that is none of the first four. */
  function Apart(needle: string): (c: char)
    requires |needle| >= 4
    ensures c !in needle[..4]
  {
    var head := needle[..4];
    assert head == [needle[0], needle[1], needle[2], needle[3]];
    if 'a' !in head then 'a' else if 'b' !in head then 'b' else if 'c' !in head then 'c' else if 'd' !in head then 'd'
    else 'e'
  }

  /** The needle's trigrams, one after another, with that character between them. */
  function Stray(needle: string): (stray: string)
    requires |needle| >= 4
    ensures |stray| == 4 * (|needle| - 2)
  {
    seq(4 * (|needle| - 2), j requires 0 <= j < 4 * (|needle| - 2) => StrayAt(needle, j))
  }

  function StrayAt(needle: string, j: nat): char
    requires |needle| >= 4 && j < 4 * (|needle| - 2)
  {
    if j % 4 == 3 then Apart(needle) else needle[j / 4 + j % 4]
  }

  lemma StrayHasGrams(needle: string)
    requires |needle| >= 4
    ensures Trigrams.Grams(needle) <= Trigrams.Grams(Stray(needle))
  {
    forall gram | gram in Trigrams.Grams(needle) ensures gram in Trigrams.Grams(Stray(needle)) {
      var i: nat :| i + 3 <= |needle| && Trigrams.Window(needle, i) == gram;
      WindowOfStray(needle, i);
      assert Trigrams.Window(Stray(needle), 4 * i) == gram;
    }
  }

  lemma WindowOfStray(needle: string, i: nat)
    requires |needle| >= 4 && i + 3 <= |needle|
    ensures 4 * i + 3 <= |Stray(needle)| && Trigrams.Window(Stray(needle), 4 * i) == Trigrams.Window(needle, i)
  {
    StrayTriple(needle, i);
    var w := Trigrams.Window(Stray(needle), 4 * i);
    assert w[0] == needle[i] && w[1] == needle[i + 1] && w[2] == needle[i + 2];
  }

  lemma StrayTriple(needle: string, i: nat)
    requires |needle| >= 4 && i + 3 <= |needle|
    ensures StrayAt(needle, 4 * i) == needle[i]
    ensures StrayAt(needle, 4 * i + 1) == needle[i + 1] && StrayAt(needle, 4 * i + 2) == needle[i + 2]
  {
  }

  /** Wherever the needle stood in it, one of its first four characters would be the one between. */
  lemma StrayLacksNeedle(needle: string)
    requires |needle| >= 4
    ensures !Like.Contains(Stray(needle), needle)
  {
    if i :| 0 <= i <= |Stray(needle)| && needle <= Stray(needle)[i..] {
      NextBetween(needle, i);
    }
  }

  lemma NextBetween(needle: string, i: nat)
    requires |needle| >= 4 && i <= |Stray(needle)|
    ensures !(needle <= Stray(needle)[i..])
  {
    var d := NextThird(i);
    assert needle[d] == needle[..4][d];
    if i + d < |Stray(needle)| {
      assert Stray(needle)[i..][d] == StrayAt(needle, i + d) == Apart(needle);
    }
  }

  lemma NextThird(i: nat) returns (d: nat)
    ensures d < 4 && (i + d) % 4 == 3
  {
    d := 3 - i % 4;
  }

  /** Asked for one record with the needle, the path looks at eight strays and returns nothing. */
  lemma CutOffLosesTheMatch(needle: string, field: string, num: NumberTest, debug: Value -> string)
    requires |needle| >= 4 && Like.Literal(needle)
    ensures var stray, ast := Stray(needle), OneWith(needle, field, None);
            var view := EightAndOne(stray, needle, field, field);
            && NeedleOf(ast) == Some(needle) && FilesGrams(GramLists(stray, needle), view, field)
            && Answer(GramLists(stray, needle), view, ast, num, debug) == []
            && FullAnswer(view, ast, num, debug) == [view[9]]
  {
    var stray, ast := Stray(needle), OneWith(needle, field, None);
    var view := EightAndOne(stray, needle, field, field);
    NeedleRead(needle, field, None);
    NineFiled(stray, needle, field, field);
    StrayHasGrams(needle);
    EightLookedAt(needle, stray, needle, field, None);
    OnlyNineMatches(needle, field, num);
    NothingWithoutNine(Ids(8), view, ast, num, debug);
    OnlyNine(view, ast, num, debug);
  }

  lemma NothingWithoutNine(ids: set<nat>, view: map<nat, Record>, ast: Ast, num: NumberTest, debug: Value -> string)
    requires MatchingIds(view, ast, num) == {9} && 9 !in ids && ast.orderBy.None?
    ensures SortAndLimit(IdRows(InIdOrder(ids, Asc), view, Matcher(ast, num)), ast, debug) == []
  {
    IdsArranged(ids, Asc);
    NoMatches(InIdOrder(ids, Asc), view, ast, num);
  }

  lemma OnlyNine(view: map<nat, Record>, ast: Ast, num: NumberTest, debug: Value -> string)
    requires MatchingIds(view, ast, num) == {9} && ast.orderBy.None? && ast.limit == Some(1)
    ensures 9 in view && FullAnswer(view, ast, num, debug) == [view[9]]
  {
    assert 9 in MatchingIds(view, ast, num);
    IdsUnique([9], {9}, Asc);
    AllRows([9], view, Matcher(ast, num));
  }

  lemma OnlyNineMatches(needle: string, field: string, num: NumberTest)
    requires |needle| >= 4 && NeedleOf(OneWith(needle, field, None)) == Some(needle)
    ensures MatchingIds(EightAndOne(Stray(needle), needle, field, field), OneWith(needle, field, None), num) == {9}
  {
    var view, ast := EightAndOne(Stray(needle), needle, field, field), OneWith(needle, field, None);
    StrayLacksNeedle(needle);
    assert needle <= needle[0..];
    forall id ensures id in MatchingIds(view, ast, num) <==> id == 9 {
      MatchesContain(view, ast, num, id);
    }
  }

  // ----- A query with an order ---------------------------------------------------------------

  /** Two texts with the needle, the first of which comes later in this order. */
  lemma LaterAndEarlier(needle: string, order: OrderBy, field: string, debug: Value -> string)
    returns (later: string, earlier: string)
    requires forall s, t :: debug(String(s)) == debug(String(t)) ==> s == t
    ensures Like.Contains(later, needle) && Like.Contains(earlier, needle)
    ensures RowOrder(order, debug)(TextRecord(earlier, field, order.field), TextRecord(later, field, order.field))
  {
    var longer := needle + "x";
    assert needle <= needle[0..] && needle <= longer[0..];
    assert |needle| != |longer|;
    Bytes.TextTotal(debug(String(needle)), debug(String(longer)));
    if Bytes.TextLess(debug(String(needle)), debug(String(longer))) == (order.direction == Asc) {
      later, earlier := longer, needle;
    } else {
      later, earlier := needle, longer;
    }
  }

  /** Asked for the first record in an order, the path looks at eight that come after it. */
  lemma CutOffLosesTheFirst(needle: string, order: OrderBy, num: NumberTest, debug: Value -> string)
    requires |needle| >= 3 && Like.Literal(needle)
    requires forall s, t :: debug(String(s)) == debug(String(t)) ==> s == t
    ensures exists lists: Lists, view: map<nat, Record>, ast: Ast ::
              && NeedleOf(ast) == Some(needle) && ast.orderBy == Some(order)
              && FilesGrams(lists, view, ast.wheres[0].field)
              && Answer(lists, view, ast, num, debug) != FullAnswer(view, ast, num, debug)
  {
    var field, ast := "", OneWith(needle, "", Some(order));
    var later, earlier := LaterAndEarlier(needle, order, field, debug);
    var view, lists := EightAndOne(later, earlier, field, order.field), GramLists(later, earlier);
    NeedleRead(needle, field, Some(order));
    NineFiled(later, earlier, field, order.field);
    Trigrams.ContainedGrams(later, needle);
    Trigrams.ContainedGrams(earlier, needle);
    EightLookedAt(needle, later, earlier, field, Some(order));
    AllNineMatch(needle, later, earlier, field, order, num);
    RowsOfNine(later, earlier, field, order.field, Ids(8), ast, num);
    RowsOfNine(later, earlier, field, order.field, Ids(9), ast, num);
    FirstInOrder(IdRows(InIdOrder(Ids(8), Asc), view, Matcher(ast, num)),
                 IdRows(InIdOrder(Ids(9), Asc), view, Matcher(ast, num)), view[1], view[9], ast, debug);
  }

  lemma AllNineMatch(needle: string, text: string, last: string, field: string, order: OrderBy, num: NumberTest)
    requires NeedleOf(OneWith(needle, field, Some(order))) == Some(needle)
    requires Like.Contains(text, needle) && Like.Contains(last, needle)
    ensures MatchingIds(EightAndOne(text, last, field, order.field), OneWith(needle, field, Some(order)), num) == Ids(9)
  {
    var view, ast := EightAndOne(text, last, field, order.field), OneWith(needle, field, Some(order));
    forall id ensures id in MatchingIds(view, ast, num) <==> id in Ids(9) {
      MatchesContain(view, ast, num, id);
    }
  }

  /** The rows of the first of the nine, or of all of them. */
  lemma RowsOfNine(text: string, last: string, field: string, sortBy: string, ids: set<nat>, ast: Ast, num: NumberTest)
    requires 1 in ids && ids <= MatchingIds(EightAndOne(text, last, field, sortBy), ast, num)
    ensures var view := EightAndOne(text, last, field, sortBy);
            var rows := IdRows(InIdOrder(ids, Asc), view, Matcher(ast, num));
            && view[1] in rows && (9 in ids ==> view[9] in rows)
            && forall r :: r in rows ==> r == view[1] || (9 in ids && r == view[9])
  {
    var view := EightAndOne(text, last, field, sortBy);
    forall id | id in ids ensures id in view && Matcher(ast, num)(view[id]) {
      assert id in MatchingIds(view, ast, num);
    }
    RowsOfMatches(ids, view, Matcher(ast, num));
    assert forall id :: id in ids ==> view[id] == if id == 9 then view[9] else view[1];
  }

  lemma RowsOfMatches(ids: set<nat>, view: map<nat, Record>, matches: Record -> bool)
    requires forall id :: id in ids ==> id in view && matches(view[id])
    ensures forall r :: r in IdRows(InIdOrder(ids, Asc), view, matches) <==> exists id :: id in ids && r == view[id]
  {
    var q := InIdOrder(ids, Asc);
    IdsArranged(ids, Asc);
    AllRows(q, view, matches);
    forall id | id in ids ensures view[id] in IdRows(q, view, matches) {
      var i :| 0 <= i < |q| && q[i] == id;
      assert IdRows(q, view, matches)[i] == view[id];
    }
    forall i | 0 <= i < |q| ensures IdRows(q, view, matches)[i] == view[q[i]] && q[i] in ids {
      assert q[i] in q;
    }
  }

  /** Cut to one row, rows with the least one in them do not give what rows without it give. */
  lemma FirstInOrder(without: seq<Record>, rows: seq<Record>, later: Record, least: Record, ast: Ast,
                     debug: Value -> string)
    requires ast.orderBy.Some? && ast.limit == Some(1) && RowOrder(ast.orderBy.value, debug)(least, later)
    requires later in without && least in rows
    requires (forall r :: r in without ==> r == later) && forall r :: r in rows ==> r == later || r == least
    ensures SortAndLimit(without, ast, debug) != SortAndLimit(rows, ast, debug)
  {
    var less := RowOrder(ast.orderBy.value, debug);
    SortedRows(without, ast.orderBy.value, debug);
    SortedRows(rows, ast.orderBy.value, debug);
    var a, b := Sorting.Sorted(without, less), Sorting.Sorted(rows, less);
    assert later !in rows || less(least, later);
    LeastFirst(b, least, later, less);
    assert a[0] in a && SortAndLimit(without, ast, debug) == [a[0]];
    assert SortAndLimit(rows, ast, debug) == [b[0]];
    NotLessThanItself(least, ast.orderBy.value, debug);
  }

  lemma LeastFirst(q: seq<Record>, least: Record, later: Record, less: (Record, Record) -> bool)
    requires Sorting.Ascending(q, less) && less(least, later) && least in q
    requires forall r :: r in q ==> r == later || r == least
    ensures q[0] == least
  {
    var i :| 0 <= i < |q| && q[i] == least;
    assert q[0] in q;
  }

  lemma NotLessThanItself(r: Record, order: OrderBy, debug: Value -> string)
    ensures !RowOrder(order, debug)(r, r)
  {
    RowOrderIsWeak(order, debug);
  }

  lemma SortedRows(rows: seq<Record>, order: OrderBy, debug: Value -> string)
    ensures var out := Sorting.Sorted(rows, RowOrder(order, debug));
            Sorting.Ascending(out, RowOrder(order, debug)) && forall r :: r in out <==> r in rows
  {
    var out := Sorting.Sorted(rows, RowOrder(order, debug));
    RowOrderIsWeak(order, debug);
    Sorting.SortedSpec(rows, RowOrder(order, debug));
    forall r ensures r in out <==> r in rows {
      assert r in multiset(out) <==> r in multiset(rows);
    }
  }
}
