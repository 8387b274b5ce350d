/**
 One sort index: a sealed sorted run, a mutable active set, and the record ids whose sealed entry
 is stale. Incremental upkeep, and the merge that answers ordered queries.
 */
module SortRuns {
  import opened Wrappers
  import opened Json
  import opened Ordering

  datatype Entry = Entry(key: int, recordId: nat)

  datatype Direction = Asc | Desc

  datatype SortRun = SortRun(sealed: seq<Entry>, active: set<Entry>, stale: set<nat>, values: map<nat, int>)

  const EMPTY_RUN := SortRun([], {}, {}, map[])

  predicate EntryLess(a: Entry, b: Entry) {
    a.key < b.key || (a.key == b.key && a.recordId < b.recordId)
  }

  predicate Before(dir: Direction, a: Entry, b: Entry) {
    if dir == Asc then EntryLess(a, b) else EntryLess(b, a)
  }

  function Order(dir: Direction): (Entry, Entry) -> bool {
    (a, b) => Before(dir, a, b)
  }

  lemma OrderIsTotal(dir: Direction)
    ensures StrictTotalOrder(Order(dir))
  {
  }

  lemma Arranged(s: set<Entry>, dir: Direction)
    ensures forall e :: e in Arrange(s, Order(dir)) <==> e in s
    ensures Ascends(Arrange(s, Order(dir)), Order(dir))
  {
    OrderIsTotal(dir);
    ArrangeSpec(s, Order(dir));
  }

  /** The entries in order: how a B-tree iterates, and what sorting a vector of them leaves. */
  method InOrder(s: set<Entry>, dir: Direction) returns (q: seq<Entry>)
    ensures q == Arrange(s, Order(dir))
  {
    OrderIsTotal(dir);
    q := LayOut(s, Order(dir));
  }

  // ----- Upkeep -----------------------------------------------------------------------------

  function Deindexed(run: SortRun, id: nat): SortRun {
    if id !in run.values then run
    else
      var e := Entry(run.values[id], id);
      var kept := run.(values := run.values - {id});
      if e in run.active then kept.(active := run.active - {e}) else kept.(stale := run.stale + {id})
  }

  function Indexed(run: SortRun, id: nat, key: int): SortRun {
    run.(active := run.active + {Entry(key, id)}, values := run.values[id := key])
  }

  ghost predicate Live(run: SortRun, e: Entry) {
    e in run.active || (e in run.sealed && e.recordId !in run.stale)
  }

  /** The live entries are exactly one per record in `want`, and none is in both halves. */
  ghost predicate Mirrors(run: SortRun, want: map<nat, int>) {
    && run.values == want
    && (forall e :: Live(run, e) <==> e.recordId in want && want[e.recordId] == e.key)
    && (forall a, b :: a in run.active && b in run.sealed && a.recordId == b.recordId ==> b.recordId in run.stale)
    && Ascends(run.sealed, Order(Asc))
  }

  lemma DeindexedMirrors(run: SortRun, want: map<nat, int>, id: nat)
    requires Mirrors(run, want)
    ensures Mirrors(Deindexed(run, id), want - {id})
  {
    var run' := Deindexed(run, id);
    if id in want {
      var gone := Entry(want[id], id);
      assert Live(run, gone);
      forall e ensures Live(run', e) <==> Live(run, e) && e.recordId != id {
        if Live(run, e) && e.recordId == id {
          assert e == gone;
        }
      }
    } else {
      assert want - {id} == want;
    }
  }

  lemma IndexedMirrors(run: SortRun, want: map<nat, int>, id: nat, key: int)
    requires Mirrors(run, want) && id !in want
    ensures Mirrors(Indexed(run, id, key), want[id := key])
  {
    var run' := Indexed(run, id, key);
    forall e ensures Live(run', e) <==> Live(run, e) || e == Entry(key, id) {
    }
    forall b | b in run.sealed && b.recordId == id ensures id in run.stale {
      assert !Live(run, b);
    }
  }

  /** The entries a full rebuild seals. */
  ghost function EntriesOf(want: map<nat, int>): (s: set<Entry>)
    ensures forall e :: e in s <==> e.recordId in want && want[e.recordId] == e.key
  {
    set id | id in want :: Entry(want[id], id)
  }

  ghost predicate Sealed(run: SortRun, want: map<nat, int>) {
    && run.active == {} && run.stale == {} && run.values == want
    && run.sealed == Arrange(EntriesOf(want), Order(Asc))
  }

  lemma SealedMirrors(run: SortRun, want: map<nat, int>)
    requires Sealed(run, want)
    ensures Mirrors(run, want)
  {
    Arranged(EntriesOf(want), Asc);
  }

  /** However it was maintained, an index of the same records lists the same entries in the same order. */
  ghost function Listing(run: SortRun, dir: Direction): seq<Entry> {
    Arrange(LiveSet(run.sealed, run.stale) + run.active, Order(dir))
  }

  ghost function LiveSet(sealed: seq<Entry>, stale: set<nat>): (s: set<Entry>)
    ensures forall e :: e in s <==> e in sealed && e.recordId !in stale
  {
    set e | e in sealed && e.recordId !in stale
  }

  lemma ListingIsRebuilt(run: SortRun, want: map<nat, int>, dir: Direction)
    requires Mirrors(run, want)
    ensures Listing(run, dir) == Arrange(EntriesOf(want), Order(dir))
  {
    assert LiveSet(run.sealed, run.stale) + run.active == EntriesOf(want) by {
      forall e ensures e in LiveSet(run.sealed, run.stale) + run.active <==> e in EntriesOf(want) {
        assert Live(run, e) <==> e in EntriesOf(want);
      }
    }
  }

  // ----- The merge --------------------------------------------------------------------------

  /** The rows of the listed records that satisfy the query, in listing order. */
  function Rows(entries: seq<Entry>, view: map<nat, Record>, matches: Record -> bool): seq<Record> {
    if entries == [] then [] else RowOf(entries[0], view, matches) + Rows(entries[1..], view, matches)
  }

  function RowOf(e: Entry, view: map<nat, Record>, matches: Record -> bool): seq<Record> {
    if e.recordId in view && matches(view[e.recordId]) then [view[e.recordId]] else []
  }

  /** Skips the stale entries at the front of what is left of the sealed run, going up. */
  method SkipStaleUp(sealed: seq<Entry>, stale: set<nat>, from: nat) returns (si: nat)
    requires from <= |sealed| && Ascends(sealed, Order(Asc))
    ensures from <= si <= |sealed|
    ensures LiveSet(sealed[si..], stale) == LiveSet(sealed[from..], stale)
    ensures si < |sealed| ==> IsLeast(sealed[si], LiveSet(sealed[from..], stale), Order(Asc))
    ensures si < |sealed| ==> LiveSet(sealed[si + 1..], stale) == LiveSet(sealed[from..], stale) - {sealed[si]}
    ensures si == |sealed| ==> LiveSet(sealed[from..], stale) == {}
  {
    si := from;
    while si < |sealed| && sealed[si].recordId in stale
      invariant from <= si <= |sealed|
      invariant LiveSet(sealed[si..], stale) == LiveSet(sealed[from..], stale)
    {
      assert sealed[si..] == [sealed[si]] + sealed[si + 1..];
      si := si + 1;
    }
    if si < |sealed| {
      assert sealed[si..] == [sealed[si]] + sealed[si + 1..];
    }
  }

  method SkipStaleDown(sealed: seq<Entry>, stale: set<nat>, from: nat) returns (si: nat)
    requires from <= |sealed| && Ascends(sealed, Order(Asc))
    ensures si <= from
    ensures LiveSet(sealed[..si], stale) == LiveSet(sealed[..from], stale)
    ensures si > 0 ==> IsLeast(sealed[si - 1], LiveSet(sealed[..from], stale), Order(Desc))
    ensures si > 0 ==> LiveSet(sealed[..si - 1], stale) == LiveSet(sealed[..from], stale) - {sealed[si - 1]}
    ensures si == 0 ==> LiveSet(sealed[..from], stale) == {}
  {
    si := from;
    while si > 0 && sealed[si - 1].recordId in stale
      invariant si <= from
      invariant LiveSet(sealed[..si], stale) == LiveSet(sealed[..from], stale)
    {
      assert sealed[..si] == sealed[..si - 1] + [sealed[si - 1]];
      si := si - 1;
    }
    if si > 0 {
      assert sealed[..si] == sealed[..si - 1] + [sealed[si - 1]];
    }
  }

  /** The rows still to come when these entries are left. */
  ghost function Pending(left: set<Entry>, dir: Direction, view: map<nat, Record>,
                         matches: Record -> bool): seq<Record> {
    Rows(Arrange(left, Order(dir)), view, matches)
  }

  /** The head a half offers to the merge: its least entry, unless it is exhausted. */
  ghost predicate Heads(head: Option<Entry>, half: set<Entry>, dir: Direction) {
    match head
    case None => half == {}
    case Some(e) => IsLeast(e, half, Order(dir))
  }

  /** The sealed head is taken when it comes strictly first, or there is no other. */
  predicate TakeSealed(dir: Direction, s: Option<Entry>, a: Option<Entry>) {
    s.Some? && (a.None? || Before(dir, s.value, a.value))
  }

  lemma HeadIsLeast(live: set<Entry>, active: set<Entry>, s: Option<Entry>, a: Option<Entry>, dir: Direction)
    requires live !! active && Heads(s, live, dir) && Heads(a, active, dir)
    requires s.Some? || a.Some?
    ensures IsLeast(if TakeSealed(dir, s, a) then s.value else a.value, live + active, Order(dir))
  {
  }

  /** Taking the least entry off what is left moves exactly its row from pending to out. */
  lemma PendingPop(all: set<Entry>, e: Entry, dir: Direction, view: map<nat, Record>, matches: Record -> bool)
    requires IsLeast(e, all, Order(dir))
    ensures Pending(all, dir, view, matches) == RowOf(e, view, matches) + Pending(all - {e}, dir, view, matches)
  {
    OrderIsTotal(dir);
    ArrangePop(all, e, Order(dir));
    var rest := Arrange(all - {e}, Order(dir));
    assert ([e] + rest)[1..] == rest;
  }

  /** The B-tree iterator over the active set stands before exactly the entries in `rest`. */
  ghost predicate StandsBefore(active: seq<Entry>, ai: nat, rest: set<Entry>, dir: Direction) {
    ai <= |active| && active[ai..] == Arrange(rest, Order(dir))
  }

  function Peek(active: seq<Entry>, ai: nat): Option<Entry> {
    if ai < |active| then Some(active[ai]) else None
  }

  lemma ActiveHead(active: seq<Entry>, ai: nat, rest: set<Entry>, dir: Direction)
    requires StandsBefore(active, ai, rest, dir)
    ensures Heads(Peek(active, ai), rest, dir)
    ensures ai < |active| ==> StandsBefore(active, ai + 1, rest - {active[ai]}, dir)
  {
    Arranged(rest, dir);
    if ai < |active| {
      var e := active[ai];
      assert e == active[ai..][0] && active[ai + 1..] == active[ai..][1..];
      assert e in Arrange(rest, Order(dir));
      forall x | x in rest && x != e ensures Before(dir, e, x) {
        assert x in Arrange(rest, Order(dir));
      }
      OrderIsTotal(dir);
      ArrangePop(rest, e, Order(dir));
    } else {
      assert forall x :: x in rest ==> x in active[ai..];
    }
  }

  ghost predicate Mergeable(run: SortRun) {
    && Ascends(run.sealed, Order(Asc))
    && forall a, b :: a in run.active && b in run.sealed && a.recordId == b.recordId ==> b.recordId in run.stale
  }

  /** The entry taken leaves the half it was in. */
  lemma LeftAfter(live: set<Entry>, rest: set<Entry>, live': set<Entry>, rest': set<Entry>, e: Entry)
    requires || (live' == live - {e} && rest' == rest && e !in rest)
             || (live' == live && rest' == rest - {e} && e !in live)
    ensures live' + rest' == live + rest - {e}
  {
  }

  /** One turn of the ascending merge: the next entry of the listing and the cursors after it. */
  method NextUp(run: SortRun, active: seq<Entry>, from: nat, ai: nat, ghost rest: set<Entry>,
                ghost view: map<nat, Record>, ghost matches: Record -> bool)
    returns (next: Option<Entry>, si: nat, ai': nat, ghost rest': set<Entry>)
    requires Mergeable(run) && rest <= run.active && from <= |run.sealed| && StandsBefore(active, ai, rest, Asc)
    ensures si <= |run.sealed| && rest' <= rest && StandsBefore(active, ai', rest', Asc)
    ensures next.Some? ==> |run.sealed| - si + |active| - ai' < |run.sealed| - from + |active| - ai
    ensures Pending(LiveSet(run.sealed[from..], run.stale) + rest, Asc, view, matches) ==
            if next.None? then [] else
              RowOf(next.value, view, matches)
              + Pending(LiveSet(run.sealed[si..], run.stale) + rest', Asc, view, matches)
  {
    si := SkipStaleUp(run.sealed, run.stale, from);
    ai', rest' := ai, rest;
    ghost var left := LiveSet(run.sealed[from..], run.stale) + rest;
    var s, a := Peek(run.sealed, si), Peek(active, ai);
    ActiveHead(active, ai, rest, Asc);
    if s.None? && a.None? {
      assert left == {};
      next := None;
      return;
    }
    HeadIsLeast(LiveSet(run.sealed[from..], run.stale), rest, s, a, Asc);
    if TakeSealed(Asc, s, a) {
      next, si := s, si + 1;
    } else {
      next, ai', rest' := a, ai + 1, rest - {a.value};
    }
    PendingPop(left, next.value, Asc, view, matches);
    LeftAfter(LiveSet(run.sealed[from..], run.stale), rest, LiveSet(run.sealed[si..], run.stale), rest', next.value);
  }

  method NextDown(run: SortRun, active: seq<Entry>, from: nat, ai: nat, ghost rest: set<Entry>,
                  ghost view: map<nat, Record>, ghost matches: Record -> bool)
    returns (next: Option<Entry>, si: nat, ai': nat, ghost rest': set<Entry>)
    requires Mergeable(run) && rest <= run.active && from <= |run.sealed| && StandsBefore(active, ai, rest, Desc)
    ensures si <= |run.sealed| && rest' <= rest && StandsBefore(active, ai', rest', Desc)
    ensures next.Some? ==> si + |active| - ai' < from + |active| - ai
    ensures Pending(LiveSet(run.sealed[..from], run.stale) + rest, Desc, view, matches) ==
            if next.None? then [] else
              RowOf(next.value, view, matches)
              + Pending(LiveSet(run.sealed[..si], run.stale) + rest', Desc, view, matches)
  {
    si := SkipStaleDown(run.sealed, run.stale, from);
    ai', rest' := ai, rest;
    ghost var left := LiveSet(run.sealed[..from], run.stale) + rest;
    var s, a := if si > 0 then Some(run.sealed[si - 1]) else None, Peek(active, ai);
    ActiveHead(active, ai, rest, Desc);
    if s.None? && a.None? {
      assert left == {};
      next := None;
      return;
    }
    HeadIsLeast(LiveSet(run.sealed[..from], run.stale), rest, s, a, Desc);
    if TakeSealed(Desc, s, a) {
      next, si := s, si - 1;
    } else {
      next, ai', rest' := a, ai + 1, rest - {a.value};
    }
    PendingPop(left, next.value, Desc, view, matches);
    LeftAfter(LiveSet(run.sealed[..from], run.stale), rest, LiveSet(run.sealed[..si], run.stale), rest', next.value);
  }

  /** Ascending merge: the first `limit` matching rows of the listing. */
  method MergeUp(run: SortRun, active: seq<Entry>, view: map<nat, Record>, matches: Record -> bool, limit: nat)
    returns (out: seq<Record>)
    requires Mergeable(run) && active == Arrange(run.active, Order(Asc))
    ensures out == Take(Rows(Listing(run, Asc), view, matches), limit)
  {
    out := [];
    var si, ai := 0, 0;
    ghost var rest := run.active;
    assert run.sealed[0..] == run.sealed && active[0..] == active;
    while |out| < limit
      invariant 0 <= si <= |run.sealed| && |out| <= limit
      invariant StandsBefore(active, ai, rest, Asc) && rest <= run.active
      invariant Rows(Listing(run, Asc), view, matches)
             == out + Pending(LiveSet(run.sealed[si..], run.stale) + rest, Asc, view, matches)
      decreases |run.sealed| - si + |active| - ai
    {
      var next;
      next, si, ai, rest := NextUp(run, active, si, ai, rest, view, matches);
      if next.None? {
        break;
      }
      Regroup(out, RowOf(next.value, view, matches),
              Pending(LiveSet(run.sealed[si..], run.stale) + rest, Asc, view, matches));
      out := out + RowOf(next.value, view, matches);
    }
  }

  /** Descending merge. */
  method MergeDown(run: SortRun, active: seq<Entry>, view: map<nat, Record>, matches: Record -> bool, limit: nat)
    returns (out: seq<Record>)
    requires Mergeable(run) && active == Arrange(run.active, Order(Desc))
    ensures out == Take(Rows(Listing(run, Desc), view, matches), limit)
  {
    out := [];
    var si, ai := |run.sealed|, 0;
    ghost var rest := run.active;
    assert run.sealed[..si] == run.sealed && active[0..] == active;
    while |out| < limit
      invariant 0 <= si <= |run.sealed| && |out| <= limit
      invariant StandsBefore(active, ai, rest, Desc) && rest <= run.active
      invariant Rows(Listing(run, Desc), view, matches)
             == out + Pending(LiveSet(run.sealed[..si], run.stale) + rest, Desc, view, matches)
      decreases si + |active| - ai
    {
      var next;
      next, si, ai, rest := NextDown(run, active, si, ai, rest, view, matches);
      if next.None? {
        break;
      }
      Regroup(out, RowOf(next.value, view, matches),
              Pending(LiveSet(run.sealed[..si], run.stale) + rest, Desc, view, matches));
      out := out + RowOf(next.value, view, matches);
    }
  }
}
