/** Finite sets laid out in the order of a strict total order, as B-trees and sorted vectors hold them. */
module Ordering {

  ghost predicate StrictTotalOrder<T(!new)>(less: (T, T) -> bool) {
    && (forall x :: !less(x, x))
    && (forall x, y :: less(x, y) || x == y || less(y, x))
    && (forall x, y, z :: less(x, y) && less(y, z) ==> less(x, z))
  }

  ghost predicate Ascends<T(!new)>(q: seq<T>, less: (T, T) -> bool) {
    forall i, j :: 0 <= i < j < |q| ==> less(q[i], q[j])
  }

  lemma {:induction false} SizeOfSubset<T>(a: set<T>, b: set<T>)
    requires a <= b
    ensures |a| <= |b|
    decreases |a|
  {
    if a == {} {
    } else {
      var x :| x in a;
      SizeOfSubset(a - {x}, b - {x});
    }
  }

  lemma SubsetOfSameSize<T>(a: set<T>, b: set<T>)
    requires a <= b && |a| == |b|
    ensures a == b
  {
    if x :| x in b && x !in a {
      SizeOfSubset(a, b - {x});
    }
  }

  ghost predicate IsLeast<T(!new)>(m: T, s: set<T>, less: (T, T) -> bool) {
    m in s && forall x :: x in s && x != m ==> less(m, x)
  }

  lemma {:induction false} LeastExists<T(!new)>(s: set<T>, less: (T, T) -> bool)
    requires StrictTotalOrder(less) && s != {}
    ensures exists m :: IsLeast(m, s, less)
    decreases |s|
  {
    var x :| x in s;
    if s == {x} {
      assert IsLeast(x, s, less);
    } else {
      LeastExists(s - {x}, less);
      var m :| IsLeast(m, s - {x}, less);
      var k := if less(x, m) then x else m;
      forall y | y in s && y != k ensures less(k, y) {
        assert y == x || y in s - {x};
      }
      assert IsLeast(k, s, less);
    }
  }

  /** The set from its least element up (or as far as there is a least element). */
  ghost function Arrange<T(!new)>(s: set<T>, less: (T, T) -> bool): seq<T>
    decreases |s|
  {
    if exists m :: IsLeast(m, s, less) then
      var m :| IsLeast(m, s, less);
      [m] + Arrange(s - {m}, less)
    else []
  }

  /** Under a strict total order the layout is exactly the set, ascending. */
  lemma {:induction false} ArrangeSpec<T(!new)>(s: set<T>, less: (T, T) -> bool)
    requires StrictTotalOrder(less)
    ensures forall x :: x in Arrange(s, less) <==> x in s
    ensures Ascends(Arrange(s, less), less)
    ensures |Arrange(s, less)| == |s|
    decreases |s|
  {
    if s != {} {
      LeastExists(s, less);
      var m := Arrange(s, less)[0];
      assert IsLeast(m, s, less);
      ArrangeSpec(s - {m}, less);
      assert Arrange(s, less)[1..] == Arrange(s - {m}, less);
      var rest := Arrange(s - {m}, less);
      assert forall i :: 0 <= i < |rest| ==> rest[i] in rest && rest[i] in s - {m};
    } else {
      assert forall m :: !IsLeast(m, s, less);
    }
  }

  /** Taking the least element off a set takes the first element off its layout. */
  lemma ArrangePop<T(!new)>(s: set<T>, m: T, less: (T, T) -> bool)
    requires StrictTotalOrder(less) && IsLeast(m, s, less)
    ensures Arrange(s, less) == [m] + Arrange(s - {m}, less)
  {
    var k :| IsLeast(k, s, less) && Arrange(s, less) == [k] + Arrange(s - {k}, less);
    assert less(k, m) && less(m, k) ==> less(k, k);
  }

  /** There is only one ascending layout of a set. */
  lemma {:induction false} ArrangeUnique<T(!new)>(q: seq<T>, s: set<T>, less: (T, T) -> bool)
    requires StrictTotalOrder(less)
    requires Ascends(q, less)
    requires forall x :: x in q <==> x in s
    ensures q == Arrange(s, less)
    decreases |q|
  {
    if q == [] {
      assert s == {};
    } else {
      assert q[0] in s;
      assert IsLeast(q[0], s, less);
      ArrangePop(s, q[0], less);
      forall x ensures x in q[1..] <==> x in s - {q[0]} {
        if x in q[1..] {
          var i :| 0 <= i < |q[1..]| && q[1..][i] == x;
          assert q[i + 1] == x;
        }
      }
      ArrangeUnique(q[1..], s - {q[0]}, less);
    }
  }

  method PickLeast<T(==, !new)>(s: set<T>, less: (T, T) -> bool) returns (e: T)
    requires StrictTotalOrder(less) && s != {}
    ensures IsLeast(e, s, less)
  {
    e :| e in s;
    var seen := {e};
    while seen != s
      invariant seen <= s && IsLeast(e, seen, less)
      decreases |s - seen|
    {
      var x :| x in s - seen;
      if less(x, e) {
        e := x;
      }
      seen := seen + {x};
    }
  }

  /** What sorting leaves of a collection without duplicates. */
  method LayOut<T(==, !new)>(s: set<T>, less: (T, T) -> bool) returns (q: seq<T>)
    requires StrictTotalOrder(less)
    ensures q == Arrange(s, less)
  {
    q := [];
    var rest := s;
    while rest != {}
      invariant Arrange(s, less) == q + Arrange(rest, less)
    {
      var e := PickLeast(rest, less);
      ArrangePop(rest, e, less);
      assert q + ([e] + Arrange(rest - {e}, less)) == (q + [e]) + Arrange(rest - {e}, less);
      q, rest := q + [e], rest - {e};
    }
    ArrangeSpec(rest, less);
  }
}
