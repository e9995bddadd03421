/**
 * The ordering behind `uasort` and `uksort`: PHP's sort is stable (since 8.0),
 * and a stable sort by a total preorder has exactly one result, the one a stable
 * insertion sort computes. The comparator returns a negative number, zero or a
 * positive number, as PHP callbacks do.
 */
module Sorting {

  /** `x` goes before the first element it does not come after: equal elements keep their order. */
  function Insert<T>(x: T, s: seq<T>, cmp: (T, T) -> int): (r: seq<T>)
    ensures |r| == |s| + 1
    ensures multiset(r) == multiset(s) + multiset{x}
  {
    if s == [] || cmp(x, s[0]) <= 0 then [x] + s
    else
      assert s == [s[0]] + s[1..];
      [s[0]] + Insert(x, s[1..], cmp)
  }

  function InsertionSort<T>(s: seq<T>, cmp: (T, T) -> int): (r: seq<T>)
    ensures |r| == |s|
    ensures multiset(r) == multiset(s)
  {
    if s == [] then []
    else
      assert s == [s[0]] + s[1..];
      Insert(s[0], InsertionSort(s[1..], cmp), cmp)
  }

  ghost predicate TotalPreorder<T(!new)>(cmp: (T, T) -> int)
  {
    && (forall a, b :: cmp(a, b) <= 0 || cmp(b, a) <= 0)
    && (forall a, b, c {:trigger cmp(a, b), cmp(a, c)} :: cmp(a, b) <= 0 && cmp(b, c) <= 0 ==> cmp(a, c) <= 0)
  }

  predicate Sorted<T>(s: seq<T>, cmp: (T, T) -> int)
  {
    forall i, j :: 0 <= i < j < |s| ==> cmp(s[i], s[j]) <= 0
  }

  lemma {:induction false} InsertMembers<T>(x: T, s: seq<T>, cmp: (T, T) -> int)
    ensures forall y :: y in Insert(x, s, cmp) <==> y == x || y in s
  {
    var r := Insert(x, s, cmp);
    assert multiset(r) == multiset(s) + multiset{x};
    forall y
      ensures y in r <==> y == x || y in s
    {
      assert y in r <==> y in multiset(r);
      assert y in s <==> y in multiset(s);
    }
  }

  /** Every element of `t` comes after `p`. */
  ghost predicate AllAfter<T>(p: T, t: seq<T>, cmp: (T, T) -> int)
  {
    forall i :: 0 <= i < |t| ==> cmp(p, t[i]) <= 0
  }

  lemma {:induction false} InsertAfter<T>(p: T, x: T, s: seq<T>, cmp: (T, T) -> int)
    requires cmp(p, x) <= 0 && AllAfter(p, s, cmp)
    ensures AllAfter(p, Insert(x, s, cmp), cmp)
  {
    if s != [] && cmp(x, s[0]) > 0 {
      InsertAfter(p, x, s[1..], cmp);
    }
  }

  lemma {:induction false} ConsSorted<T>(p: T, t: seq<T>, cmp: (T, T) -> int)
    requires AllAfter(p, t, cmp) && Sorted(t, cmp)
    ensures Sorted([p] + t, cmp)
  {
    var r := [p] + t;
    forall i, j | 0 <= i < j < |r|
      ensures cmp(r[i], r[j]) <= 0
    {
      assert r[j] == t[j - 1];
      if i > 0 {
        assert r[i] == t[i - 1];
      }
    }
  }

  lemma {:induction false} HeadBeforeAll<T(!new)>(x: T, s: seq<T>, cmp: (T, T) -> int)
    requires TotalPreorder(cmp) && Sorted(s, cmp) && s != [] && cmp(x, s[0]) <= 0
    ensures AllAfter(x, s, cmp)
  {
    forall j | 0 < j < |s|
      ensures cmp(x, s[j]) <= 0
    {
      assert cmp(s[0], s[j]) <= 0;
    }
  }

  lemma {:induction false} InsertSorted<T(!new)>(x: T, s: seq<T>, cmp: (T, T) -> int)
    requires TotalPreorder(cmp) && Sorted(s, cmp)
    ensures Sorted(Insert(x, s, cmp), cmp)
  {
    if s == [] {
    } else if cmp(x, s[0]) <= 0 {
      HeadBeforeAll(x, s, cmp);
      ConsSorted(x, s, cmp);
    } else {
      InsertSorted(x, s[1..], cmp);
      assert AllAfter(s[0], s[1..], cmp);
      InsertAfter(s[0], x, s[1..], cmp);
      ConsSorted(s[0], Insert(x, s[1..], cmp), cmp);
    }
  }

  /** Under a total preorder the sorted order really is sorted. */
  lemma {:induction false} InsertionSortSorted<T(!new)>(s: seq<T>, cmp: (T, T) -> int)
    requires TotalPreorder(cmp)
    ensures Sorted(InsertionSort(s, cmp), cmp)
  {
    if s != [] {
      InsertionSortSorted(s[1..], cmp);
      InsertSorted(s[0], InsertionSort(s[1..], cmp), cmp);
    }
  }

  lemma {:induction false} SortMembers<T>(s: seq<T>, cmp: (T, T) -> int)
    ensures forall y :: y in InsertionSort(s, cmp) <==> y in s
  {
    var r := InsertionSort(s, cmp);
    forall y
      ensures y in r <==> y in s
    {
      assert y in r <==> y in multiset(r);
      assert y in s <==> y in multiset(s);
    }
  }
}
