/** Strict orders on finite collections: what it means for a sequence to be
    listed strictly in order, the fact that such a listing is unique, and
    the step of an index cursor (the least element not yet visited). */
module Ordering {

  /** `s` lists its elements strictly increasing by `less`. */
  predicate StrictlySorted<T>(less: (T, T) -> bool, s: seq<T>)
  {
    forall i, j :: 0 <= i < j < |s| ==> less(s[i], s[j])
  }

  /** `less` is a strict total order on the elements of `s`. */
  ghost predicate StrictTotalOn<T>(less: (T, T) -> bool, s: set<T>)
  {
    && (forall x :: x in s ==> !less(x, x))
    && (forall x, y, z :: x in s && y in s && z in s && less(x, y) && less(y, z) ==> less(x, z))
    && (forall x, y :: x in s && y in s && x != y ==> less(x, y) || less(y, x))
  }

  /** Two strictly ordered listings of the same elements are the same
      listing: an order fixes the sequence completely. */
  lemma {:induction false} SortedUnique<T>(less: (T, T) -> bool, a: seq<T>, b: seq<T>)
    requires StrictlySorted(less, a) && StrictlySorted(less, b)
    requires forall x, y :: x in a && y in a && less(x, y) ==> !less(y, x)
    requires forall x :: x in a <==> x in b
    ensures a == b
  {
    assert a != [] ==> a[0] in b;
    assert b != [] ==> b[0] in a;
    if a != [] && b != [] {
      var i :| 0 <= i < |a| && a[i] == b[0];
      var j :| 0 <= j < |b| && b[j] == a[0];
      assert a[0] == b[0];
      forall x
        ensures x in a[1..] <==> x in b[1..]
      {
        if x in a[1..] {
          var i :| 1 <= i < |a| && a[i] == x;
          assert less(a[0], a[i]);
          assert x in b;
        }
        if x in b[1..] {
          var j :| 1 <= j < |b| && b[j] == x;
          assert less(b[0], b[j]);
          assert x in a;
        }
      }
      SortedUnique(less, a[1..], b[1..]);
      assert a == [a[0]] + a[1..] && b == [b[0]] + b[1..];
    }
  }

  /** The element of a non-empty set that `less` puts first: where an index
      cursor stands next among the records it has not visited yet. */
  method Least<T>(less: (T, T) -> bool, s: set<T>) returns (m: T)
    requires s != {} && StrictTotalOn(less, s)
    ensures m in s
    ensures forall x :: x in s && x != m ==> less(m, x)
  {
    m :| m in s;
    var rest := s - {m};
    while rest != {}
      invariant rest <= s && m in s && m !in rest
      invariant forall x :: x in s - rest && x != m ==> less(m, x)
      decreases rest
    {
      var x :| x in rest;
      if less(x, m) {
        m := x;
      }
      rest := rest - {x};
    }
  }

  /** No element occurs twice in `s`. */
  predicate NoDuplicates<T(==)>(s: seq<T>)
  {
    forall i, j :: 0 <= i < j < |s| ==> s[i] != s[j]
  }

  /** `s` is in the order a sort by the comparator leaves it: no element
      should go before one listed earlier.  `before(a, b)` holds when the
      comparator returns a negative number for `(a, b)`. */
  predicate SortedBy<T>(before: (T, T) -> bool, s: seq<T>)
  {
    forall i, j :: 0 <= i < j < |s| ==> !before(s[j], s[i])
  }

  /** `before` is a consistent comparator on `dom`, a strict weak order:
      it is asymmetric and "not before" is transitive. */
  ghost predicate StrictWeakOrderOn<T>(before: (T, T) -> bool, dom: set<T>)
  {
    && (forall x, y :: x in dom && y in dom && before(x, y) ==> !before(y, x))
    && (forall x, y, z {:trigger before(x, y), before(y, z), before(x, z)} ::
          x in dom && y in dom && z in dom && !before(x, y) && !before(y, z) ==> !before(x, z))
  }

  /** Every element that should not go before the head of a sorted list
      can be put in front of it. */
  lemma PrependSorted<T>(before: (T, T) -> bool, dom: set<T>, x: T, ys: seq<T>)
    requires StrictWeakOrderOn(before, dom) && x in dom && (forall y :: y in ys ==> y in dom)
    requires SortedBy(before, ys) && (ys != [] ==> !before(ys[0], x))
    ensures SortedBy(before, [x] + ys)
    ensures x !in ys && NoDuplicates(ys) ==> NoDuplicates([x] + ys)
  {
    var s := [x] + ys;
    forall i, j | 0 <= i < j < |s|
      ensures !before(s[j], s[i])
    {
      if i == 0 && j > 1 {
        assert ys[j - 1] in ys && ys[0] in ys;
        assert !before(ys[j - 1], ys[0]);
      }
    }
  }

  /** The head of a sorted list that goes before `x` stays in front of the
      insertion of `x` into the tail. */
  lemma ConsSorted<T>(before: (T, T) -> bool, dom: set<T>, x: T, ys: seq<T>, rest: seq<T>)
    requires StrictWeakOrderOn(before, dom) && x in dom && (forall y :: y in ys ==> y in dom)
    requires ys != [] && SortedBy(before, ys) && before(ys[0], x)
    requires SortedBy(before, rest) && multiset(rest) == multiset(ys[1..]) + multiset{x}
    ensures SortedBy(before, [ys[0]] + rest)
    ensures x !in ys && NoDuplicates(ys) && NoDuplicates(rest) ==> NoDuplicates([ys[0]] + rest)
  {
    forall k | 0 <= k < |rest|
      ensures rest[k] == x || rest[k] in ys[1..]
    {
      assert rest[k] in multiset(rest);
    }
    assert !before(x, ys[0]) by {
      assert ys[0] in ys;
    }
    forall k | 0 <= k < |rest|
      ensures !before(rest[k], ys[0])
    {
      if rest[k] != x {
        var j :| 1 <= j < |ys| && ys[j] == rest[k];
      }
    }
    var s := [ys[0]] + rest;
    forall i, j | 0 <= i < j < |s|
      ensures !before(s[j], s[i])
    {
      if i == 0 {
        assert s[j] == rest[j - 1];
      }
    }
    if x !in ys && NoDuplicates(ys) && NoDuplicates(rest) {
      forall i, j | 0 <= i < j < |s|
        ensures s[i] != s[j]
      {
        if i == 0 {
          assert s[j] == rest[j - 1];
          assert ys[0] !in ys[1..];
        }
      }
    }
  }

  /** One step of a stable insertion sort: `x` goes in front of the first
      element of the sorted `ys` that should not go before it. */
  function Insert<T>(before: (T, T) -> bool, ghost dom: set<T>, x: T, ys: seq<T>): (r: seq<T>)
    requires StrictWeakOrderOn(before, dom) && x in dom && (forall y :: y in ys ==> y in dom)
    requires SortedBy(before, ys)
    ensures SortedBy(before, r)
    ensures multiset(r) == multiset(ys) + multiset{x}
    ensures x !in ys && NoDuplicates(ys) ==> NoDuplicates(r)
  {
    if ys == [] || !before(ys[0], x) then
      PrependSorted(before, dom, x, ys);
      [x] + ys
    else
      assert ys == [ys[0]] + ys[1..];
      var rest := Insert(before, dom, x, ys[1..]);
      assert x !in ys && NoDuplicates(ys) ==> x !in ys[1..] && NoDuplicates(ys[1..]);
      ConsSorted(before, dom, x, ys, rest);
      [ys[0]] + rest
  }

  /** Two listings with the same multiset hold the same elements. */
  lemma SameMembers<T>(a: seq<T>, b: seq<T>)
    requires multiset(a) == multiset(b)
    ensures forall y :: y in a <==> y in b
  {
    forall y
      ensures y in a <==> y in b
    {
      assert y in a <==> y in multiset(a);
      assert y in b <==> y in multiset(b);
    }
  }

  /** A stable sort by the comparator (`Array.prototype.sort` is stable):
      the result is sorted and holds exactly the input's elements. */
  function InsertionSort<T>(before: (T, T) -> bool, ghost dom: set<T>, xs: seq<T>): (r: seq<T>)
    requires StrictWeakOrderOn(before, dom) && forall x :: x in xs ==> x in dom
    ensures SortedBy(before, r)
    ensures multiset(r) == multiset(xs)
    ensures NoDuplicates(xs) ==> NoDuplicates(r)
  {
    if xs == [] then []
    else
      assert xs == [xs[0]] + xs[1..];
      var rest := InsertionSort(before, dom, xs[1..]);
      SameMembers(rest, xs[1..]);
      Insert(before, dom, xs[0], rest)
  }
}
