/** Records read by their ids: sorted, kept in a bounded heap, or taken as they come. */
module RowsById {
  import opened Wrappers
  import opened Json
  import opened Ordering
  import opened SortRuns
  import opened Query

  // ----- Ids in order ------------------------------------------------------------------------

  predicate IdBefore(dir: Direction, a: nat, b: nat) {
    if dir == Asc then a < b else b < a
  }

  function IdOrder(dir: Direction): (nat, nat) -> bool {
    (a: nat, b: nat) => IdBefore(dir, a, b)
  }

  lemma IdOrderIsTotal(dir: Direction)
    ensures StrictTotalOrder(IdOrder(dir))
  {
  }

  ghost function InIdOrder(s: set<nat>, dir: Direction): seq<nat> {
    Arrange(s, IdOrder(dir))
  }

  lemma IdsArranged(s: set<nat>, dir: Direction)
    ensures forall id :: id in InIdOrder(s, dir) <==> id in s
    ensures |InIdOrder(s, dir)| == |s|
    ensures Ascends(InIdOrder(s, dir), IdOrder(dir))
  {
    IdOrderIsTotal(dir);
    ArrangeSpec(s, IdOrder(dir));
  }

  lemma IdsUnique(q: seq<nat>, s: set<nat>, dir: Direction)
    requires Ascends(q, IdOrder(dir)) && forall id :: id in q <==> id in s
    ensures q == InIdOrder(s, dir)
  {
    IdOrderIsTotal(dir);
    ArrangeUnique(q, s, IdOrder(dir));
  }

  /** Sorting a vector of distinct ids. */
  method SortIds(s: set<nat>, dir: Direction) returns (q: seq<nat>)
    ensures q == InIdOrder(s, dir)
  {
    IdOrderIsTotal(dir);
    q := LayOut(s, IdOrder(dir));
  }

  /** Ids that all come before the others stand in front of them. */
  lemma Joined(head: set<nat>, tail: set<nat>, dir: Direction)
    requires forall x, y :: x in head && y in tail ==> IdBefore(dir, x, y)
    ensures InIdOrder(head + tail, dir) == InIdOrder(head, dir) + InIdOrder(tail, dir)
  {
    var a, b := InIdOrder(head, dir), InIdOrder(tail, dir);
    IdsArranged(head, dir);
    IdsArranged(tail, dir);
    forall i, j | 0 <= i < |a| && 0 <= j < |b| ensures IdBefore(dir, a[i], b[j]) {
      assert a[i] in a && b[j] in b;
    }
    IdsUnique(a + b, head + tail, dir);
  }

  // ----- The bounded heap --------------------------------------------------------------------

  function Opposite(dir: Direction): Direction {
    if dir == Asc then Desc else Asc
  }

  /** The least id of a non-empty set: what the top of the heap is, seen from its other end. */
  method FirstId(s: set<nat>, dir: Direction) returns (m: nat)
    requires s != {}
    ensures IsLeast(m, s, IdOrder(dir))
  {
    IdOrderIsTotal(dir);
    m := PickLeast(s, IdOrder(dir));
  }

  /** `kept` is what a bounded heap holds after seeing `seen`: its first `limit` ids in the order. */
  ghost predicate KeepsFirst(kept: set<nat>, seen: set<nat>, limit: nat, dir: Direction) {
    && kept <= seen
    && |kept| == Min(limit, |seen|)
    && forall x, y :: x in seen && x !in kept && y in kept ==> IdBefore(dir, y, x)
  }

  /** The bounded heap: every candidate is pushed, and the worst popped whenever there are too many. */
  method BoundedHeap(candidates: set<nat>, limit: nat, dir: Direction) returns (heap: set<nat>)
    ensures KeepsFirst(heap, candidates, limit, dir)
  {
    heap := {};
    var seen := {};
    while seen != candidates
      invariant seen <= candidates && KeepsFirst(heap, seen, limit, dir)
      decreases candidates - seen
    {
      assert exists x :: x in candidates && x !in seen;
      var x :| x in candidates && x !in seen;
      ghost var before := heap;
      heap := heap + {x};
      seen := seen + {x};
      if |heap| > limit {
        var worst := FirstId(heap, Opposite(dir));
        heap := heap - {worst};
        PopKeepsFirst(before, seen - {x}, x, worst, limit, dir);
        assert seen - {x} + {x} == seen;
      } else {
        assert before == seen - {x} by {
          SubsetOfSameSize(before, seen - {x});
        }
      }
    }
  }

  lemma PopKeepsFirst(kept: set<nat>, seen: set<nat>, x: nat, worst: nat, limit: nat, dir: Direction)
    requires KeepsFirst(kept, seen, limit, dir) && x !in seen && |kept| == limit
    requires IsLeast(worst, kept + {x}, IdOrder(Opposite(dir)))
    ensures KeepsFirst(kept + {x} - {worst}, seen + {x}, limit, dir)
  {
  }

  /** The heap's ids, sorted, are the first `limit` of all candidates in the order. */
  lemma HeapIsTop(kept: set<nat>, seen: set<nat>, limit: nat, dir: Direction)
    requires KeepsFirst(kept, seen, limit, dir)
    ensures InIdOrder(kept, dir) == Take(InIdOrder(seen, dir), limit)
  {
    IdsArranged(kept, dir);
    IdsArranged(seen, dir);
    Joined(kept, seen - kept, dir);
    assert kept + (seen - kept) == seen;
    if |kept| == |seen| {
      SubsetOfSameSize(kept, seen);
    }
  }

  // ----- Rows --------------------------------------------------------------------------------

  /** The rows that reading these ids gives, in their order. */
  function IdRows(ids: seq<nat>, view: map<nat, Record>, matches: Record -> bool): seq<Record> {
    if ids == [] then []
    else (if ids[0] in view && matches(view[ids[0]]) then [view[ids[0]]] else []) + IdRows(ids[1..], view, matches)
  }

  /** The first `limit` matching records by id. */
  ghost function TopById(view: map<nat, Record>, ast: Ast, num: NumberTest, dir: Direction): seq<Record> {
    IdRows(AtMost(InIdOrder(MatchingIds(view, ast, num), dir), ast.limit), view, Matcher(ast, num))
  }

  lemma {:induction false} IdRowsAppend(a: seq<nat>, b: seq<nat>, view: map<nat, Record>, matches: Record -> bool)
    ensures IdRows(a + b, view, matches) == IdRows(a, view, matches) + IdRows(b, view, matches)
    decreases |a|
  {
    if a == [] {
      assert a + b == b;
    } else {
      assert (a + b)[1..] == a[1..] + b;
      IdRowsAppend(a[1..], b, view, matches);
    }
  }

  /** Ids that give no row may be left out. */
  lemma {:induction false} NoRows(ids: seq<nat>, view: map<nat, Record>, matches: Record -> bool)
    requires forall id :: id in ids ==> !(id in view && matches(view[id]))
    ensures IdRows(ids, view, matches) == []
    decreases |ids|
  {
    if ids == [] {
    } else {
      assert ids[0] in ids && forall id :: id in ids[1..] ==> id in ids;
      NoRows(ids[1..], view, matches);
    }
  }

  lemma NoMatches(ids: seq<nat>, view: map<nat, Record>, ast: Ast, num: NumberTest)
    requires forall id :: id in ids ==> id !in MatchingIds(view, ast, num)
    ensures IdRows(ids, view, Matcher(ast, num)) == []
  {
    forall id | id in ids ensures !(id in view && Matcher(ast, num)(view[id])) {
      assert id !in MatchingIds(view, ast, num);
    }
    NoRows(ids, view, Matcher(ast, num));
  }

  /** Ids that all give a row give them one for one. */
  lemma {:induction false} AllRows(ids: seq<nat>, view: map<nat, Record>, matches: Record -> bool)
    requires forall id :: id in ids ==> id in view && matches(view[id])
    ensures IdRows(ids, view, matches) == seq(|ids|, i requires 0 <= i < |ids| && ids[i] in view => view[ids[i]])
    decreases |ids|
  {
    if ids == [] {
    } else {
      assert ids[0] in ids && forall id :: id in ids[1..] ==> id in ids;
      AllRows(ids[1..], view, matches);
    }
  }

  /** Rows of matches are as many as the ids, and cut off where the ids are. */
  lemma MatchRows(ids: seq<nat>, limit: Option<nat>, view: map<nat, Record>, ast: Ast, num: NumberTest)
    requires forall id :: id in ids ==> id in MatchingIds(view, ast, num)
    ensures |IdRows(ids, view, Matcher(ast, num))| == |ids|
    ensures AtMost(IdRows(ids, view, Matcher(ast, num)), limit) == IdRows(AtMost(ids, limit), view, Matcher(ast, num))
  {
    var front := AtMost(ids, limit);
    assert ids == front + ids[|front|..];
    forall id | id in ids ensures id in view && Matcher(ast, num)(view[id]) {
      assert id in MatchingIds(view, ast, num);
    }
    assert forall id :: id in front ==> id in ids;
    IdRowsAppend(front, ids[|front|..], view, Matcher(ast, num));
    AllRows(front, view, Matcher(ast, num));
    AllRows(ids, view, Matcher(ast, num));
  }

  lemma {:induction false} IdRowsOfSubset(s: set<nat>, t: set<nat>, dir: Direction, view: map<nat, Record>,
                                          matches: Record -> bool)
    requires s <= t && forall id :: id in t && id !in s ==> !(id in view && matches(view[id]))
    ensures IdRows(InIdOrder(s, dir), view, matches) == IdRows(InIdOrder(t, dir), view, matches)
    decreases |t|
  {
    if t == {} {
      assert s == t;
    } else {
      var m := FirstOf(t, dir);
      Popped(t, m, dir);
      if m in s {
        Popped(s, m, dir);
        IdRowsOfSubset(s - {m}, t - {m}, dir, view, matches);
      } else {
        IdRowsOfSubset(s, t - {m}, dir, view, matches);
      }
    }
  }

  lemma FirstOf(s: set<nat>, dir: Direction) returns (m: nat)
    requires s != {}
    ensures IsLeast(m, s, IdOrder(dir))
  {
    IdOrderIsTotal(dir);
    LeastExists(s, IdOrder(dir));
    m :| IsLeast(m, s, IdOrder(dir));
  }

  lemma Popped(s: set<nat>, m: nat, dir: Direction)
    requires IsLeast(m, s, IdOrder(dir))
    ensures InIdOrder(s, dir) != [] && InIdOrder(s, dir)[0] == m && InIdOrder(s, dir)[1..] == InIdOrder(s - {m}, dir)
  {
    IdOrderIsTotal(dir);
    ArrangePop(s, m, IdOrder(dir));
  }

  // ----- Ids as they come --------------------------------------------------------------------

  function IdSet(ids: seq<nat>): set<nat> {
    set id | id in ids
  }

  ghost predicate Distinct(ids: seq<nat>) {
    forall i, j :: 0 <= i < j < |ids| ==> ids[i] != ids[j]
  }

  /** As many distinct ids as there are, or as asked for. */
  ghost predicate Sampled(ids: seq<nat>, from: set<nat>, limit: Option<nat>) {
    Distinct(ids) && IdSet(ids) <= from && |ids| == if limit.Some? then Min(limit.value, |from|) else |from|
  }

  lemma SampledSnoc(ids: seq<nat>, from: set<nat>, id: nat, limit: Option<nat>)
    requires Sampled(ids, from, limit) && id !in from && (limit.None? || |ids| < limit.value)
    ensures Sampled(ids + [id], from + {id}, limit)
  {
    assert IdSet(ids + [id]) == IdSet(ids) + {id};
    assert forall i :: 0 <= i < |ids| ==> ids[i] in IdSet(ids);
  }

  lemma SampledFull(ids: seq<nat>, from: set<nat>, more: set<nat>, limit: Option<nat>)
    requires Sampled(ids, from, limit) && from <= more && limit.Some? && |ids| >= limit.value
    ensures Sampled(ids, more, limit)
  {
    SizeOfSubset(from, more);
  }

  /** The ids of one posting list, pushed as they come until there are enough. */
  method PushIds(idset: set<nat>, ids: seq<nat>, limit: Option<nat>, ghost seen: set<nat>)
    returns (out: seq<nat>, ghost pushed: seq<nat>)
    ensures out == ids + pushed && IdSet(pushed) <= idset
    ensures Sampled(ids, seen, limit) && seen !! idset ==> Sampled(out, seen + idset, limit)
  {
    out, pushed := ids, [];
    var rest := idset;
    ghost var sampled := Sampled(ids, seen, limit) && seen !! idset;
    ghost var from := seen;
    while rest != {} && (limit.None? || |out| < limit.value)
      invariant rest <= idset && from == seen + (idset - rest)
      invariant out == ids + pushed && IdSet(pushed) <= idset
      invariant sampled ==> Sampled(out, from, limit)
      decreases |rest|
    {
      var id :| id in rest;
      if sampled {
        SampledSnoc(out, from, id, limit);
      }
      PushedSnoc(ids, pushed, id, idset);
      out, pushed, rest, from := out + [id], pushed + [id], rest - {id}, from + {id};
    }
    if rest == {} {
      assert from == seen + idset;
    } else if sampled {
      SampledFull(out, from, seen + idset, limit);
    }
  }

  lemma PushedSnoc(ids: seq<nat>, pushed: seq<nat>, id: nat, idset: set<nat>)
    requires IdSet(pushed) <= idset && id in idset
    ensures ids + pushed + [id] == ids + (pushed + [id]) && IdSet(pushed + [id]) <= idset
  {
  }
}
