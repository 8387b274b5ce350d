/** A stable sort, as `sort_by` does it, by a comparison that may call different elements equal. */
module Sorting {

  /** Comparing elements by an order of their keys gives a relation of this kind. */
  ghost predicate WeakOrder<T(!new)>(less: (T, T) -> bool) {
    && (forall x, y :: !(less(x, y) && less(y, x)))
    && (forall x, y, z :: !less(y, x) && !less(z, y) ==> !less(z, x))
  }

  /** No element stands behind one that it is less than. */
  ghost predicate Ascending<T(!new)>(q: seq<T>, less: (T, T) -> bool) {
    forall i, j :: 0 <= i < j < |q| ==> !less(q[j], q[i])
  }

  /** An element goes in after those that are not greater. */
  function Inserted<T>(q: seq<T>, x: T, less: (T, T) -> bool): (r: seq<T>)
    ensures |r| == |q| + 1
  {
    if q == [] || !less(x, q[|q| - 1]) then q + [x]
    else Inserted(q[..|q| - 1], x, less) + [q[|q| - 1]]
  }

  function Sorted<T>(q: seq<T>, less: (T, T) -> bool): (r: seq<T>)
    ensures |r| == |q|
  {
    if q == [] then [] else Inserted(Sorted(q[..|q| - 1], less), q[|q| - 1], less)
  }

  lemma {:induction false} InsertedHolds<T(!new)>(q: seq<T>, x: T, less: (T, T) -> bool)
    ensures multiset(Inserted(q, x, less)) == multiset(q) + multiset{x}
    decreases |q|
  {
    if q == [] || !less(x, q[|q| - 1]) {
      assert multiset(q + [x]) == multiset(q) + multiset{x};
    } else {
      InsertedHolds(q[..|q| - 1], x, less);
      assert q == q[..|q| - 1] + [q[|q| - 1]];
    }
  }

  lemma {:induction false} InsertedAscends<T(!new)>(q: seq<T>, x: T, less: (T, T) -> bool)
    requires WeakOrder(less) && Ascending(q, less)
    ensures Ascending(Inserted(q, x, less), less)
    decreases |q|
  {
    if q == [] {
      assert Inserted(q, x, less) == [x];
    } else {
      var front, last := q[..|q| - 1], q[|q| - 1];
      if less(x, last) {
        InsertedAscends(front, x, less);
        InsertedHolds(front, x, less);
        var r := Inserted(front, x, less);
        forall i | 0 <= i < |r| ensures !less(last, r[i]) {
          assert r[i] in multiset(r);
          assert r[i] in front || r[i] == x;
        }
      } else {
        forall i | 0 <= i < |q| ensures !less(x, q[i]) {
          assert i == |q| - 1 || !less(last, q[i]);
        }
      }
    }
  }

  /** Sorting keeps the elements, with their multiplicities, and puts them in order. */
  lemma {:induction false} SortedSpec<T(!new)>(q: seq<T>, less: (T, T) -> bool)
    requires WeakOrder(less)
    ensures Ascending(Sorted(q, less), less)
    ensures multiset(Sorted(q, less)) == multiset(q)
  {
    if q == [] {
      assert Sorted(q, less) == [];
    } else {
      var front, x := q[..|q| - 1], q[|q| - 1];
      SortedSpec(front, less);
      InsertedAscends(Sorted(front, less), x, less);
      InsertedHolds(Sorted(front, less), x, less);
      assert q == front + [x];
    }
  }

  /** Sorting what is in order changes nothing. */
  lemma {:induction false} SortedAlready<T(!new)>(q: seq<T>, less: (T, T) -> bool)
    requires Ascending(q, less)
    ensures Sorted(q, less) == q
  {
    if q == [] {
      assert Sorted(q, less) == [];
    } else {
      var front, x := q[..|q| - 1], q[|q| - 1];
      SortedAlready(front, less);
      assert q == front + [x];
    }
  }

  /** The elements that the comparison calls equal to `x`, as they come. */
  function Ties<T>(q: seq<T>, x: T, less: (T, T) -> bool): seq<T> {
    if q == [] then []
    else
      var last := q[|q| - 1];
      Ties(q[..|q| - 1], x, less) + if !less(last, x) && !less(x, last) then [last] else []
  }

  lemma {:induction false} InsertedTies<T(!new)>(q: seq<T>, y: T, x: T, less: (T, T) -> bool)
    requires WeakOrder(less)
    ensures Ties(Inserted(q, y, less), x, less) == Ties(q + [y], x, less)
    decreases |q|
  {
    assert (q + [y])[..|q|] == q;
    if q != [] && less(y, q[|q| - 1]) {
      var front, last := q[..|q| - 1], q[|q| - 1];
      InsertedTies(front, y, x, less);
      assert (front + [y])[..|front|] == front;
      assert !(!less(y, x) && !less(x, last));
    }
  }

  /** The sort is stable: equal elements stay in the order they came in. */
  lemma {:induction false} SortedIsStable<T(!new)>(q: seq<T>, x: T, less: (T, T) -> bool)
    requires WeakOrder(less)
    ensures Ties(Sorted(q, less), x, less) == Ties(q, x, less)
  {
    if q == [] {
      assert Sorted(q, less) == [];
    } else {
      var front, y := q[..|q| - 1], q[|q| - 1];
      SortedIsStable(front, x, less);
      InsertedTies(Sorted(front, less), y, x, less);
      assert (Sorted(front, less) + [y])[..|front|] == Sorted(front, less);
    }
  }
}
