/** The contract of the library sort: a permutation in an order that the comparison does not contradict. */
module Sorting {

  predicate Sorted<T>(s: seq<T>, before: (T, T) -> bool) {
    forall i, j :: 0 <= i < j < |s| ==> before(s[i], s[j])
  }

  /** `before` is a total preorder on the elements of `s`. */
  ghost predicate Orders<T>(before: (T, T) -> bool, s: seq<T>) {
    && (forall a, b :: a in s && b in s ==> before(a, b) || before(b, a))
    && (forall a, b, c :: a in s && b in s && c in s && before(a, b) && before(b, c) ==> before(a, c))
  }

  function Insert<T>(x: T, s: seq<T>, before: (T, T) -> bool): (r: seq<T>)
    ensures |r| == |s| + 1
  {
    if s == [] || before(x, s[0]) then [x] + s else [s[0]] + Insert(x, s[1..], before)
  }

  lemma MultisetOfCons<T>(x: T, s: seq<T>)
    ensures multiset([x] + s) == multiset(s) + multiset{x}
  {
  }

  lemma {:induction false} InsertAddsOne<T>(x: T, s: seq<T>, before: (T, T) -> bool)
    ensures multiset(Insert(x, s, before)) == multiset(s) + multiset{x}
  {
    if s == [] || before(x, s[0]) {
      assert Insert(x, s, before) == [x] + s;
      hide Insert;
      MultisetOfCons(x, s);
    } else {
      var r := Insert(x, s[1..], before);
      InsertAddsOne(x, s[1..], before);
      assert Insert(x, s, before) == [s[0]] + r;
      hide Insert;
      MultisetOfCons(s[0], r);
      MultisetOfCons(s[0], s[1..]);
      assert s == [s[0]] + s[1..];
    }
  }

  lemma {:induction false} InsertedAreOld<T>(x: T, s: seq<T>, before: (T, T) -> bool)
    ensures forall y :: y in Insert(x, s, before) ==> y == x || y in s
  {
    if s != [] && !before(x, s[0]) { InsertedAreOld(x, s[1..], before); }
  }

  lemma SortedCons<T>(x: T, s: seq<T>, before: (T, T) -> bool)
    requires Sorted(s, before) && forall y :: y in s ==> before(x, y)
    ensures Sorted([x] + s, before)
  {
  }

  lemma SortedTail<T>(s: seq<T>, before: (T, T) -> bool)
    requires Sorted(s, before) && s != []
    ensures Sorted(s[1..], before) && forall y :: y in s[1..] ==> before(s[0], y)
  {
  }

  lemma {:induction false} InsertKeepsSorted<T>(x: T, s: seq<T>, before: (T, T) -> bool)
    requires Sorted(s, before) && Orders(before, [x] + s)
    ensures Sorted(Insert(x, s, before), before)
  {
    hide Sorted;
    assert x in [x] + s;
    forall y | y in s ensures y in [x] + s {}
    if s == [] {
      SortedOne(x, before);
    } else {
      assert s[0] in s && s == [s[0]] + s[1..];
      SortedTail(s, before);
      if before(x, s[0]) {
        forall y | y in s ensures before(x, y) { assert y == s[0] || y in s[1..]; }
        SortedCons(x, s, before);
      } else {
        forall y | y in [x] + s[1..] ensures y in [x] + s { assert y == x || y in s[1..]; }
        InsertKeepsSorted(x, s[1..], before);
        InsertedAreOld(x, s[1..], before);
        SortedCons(s[0], Insert(x, s[1..], before), before);
      }
    }
  }

  lemma SortedOne<T>(x: T, before: (T, T) -> bool)
    ensures Sorted([x], before) && Insert(x, [], before) == [x]
  {
  }

  /** A reference for the library sort. */
  function Sort<T>(s: seq<T>, before: (T, T) -> bool): (r: seq<T>)
    ensures |r| == |s|
  {
    if s == [] then [] else Insert(s[0], Sort(s[1..], before), before)
  }

  lemma {:induction false} SortSorts<T>(s: seq<T>, before: (T, T) -> bool)
    requires Orders(before, s)
    ensures Sorted(Sort(s, before), before) && multiset(Sort(s, before)) == multiset(s)
  {
    hide Insert;
    if s != [] {
      var x, rest := s[0], s[1..];
      var r := Sort(rest, before);
      assert s == [x] + rest;
      SortSorts(rest, before);
      forall y | y in [x] + r ensures y in s {
        if y in r { SameMembers(r, rest, y); }
      }
      InsertKeepsSorted(x, r, before);
      InsertAddsOne(x, r, before);
      MultisetOfCons(x, rest);
    }
  }

  lemma SameMembers<T>(a: seq<T>, b: seq<T>, x: T)
    requires multiset(a) == multiset(b)
    ensures x in a <==> x in b
  {
    assert x in a <==> x in multiset(a);
    assert x in b <==> x in multiset(b);
  }

  /** The library sort: any permutation that is sorted, whatever it does with elements that compare equal. */
  method LibrarySort<T(==)>(s: seq<T>, before: (T, T) -> bool) returns (r: seq<T>)
    requires Orders(before, s)
    ensures Sorted(r, before) && multiset(r) == multiset(s)
  {
    SortSorts(s, before);
    r :| Sorted(r, before) && multiset(r) == multiset(s);
  }
}
