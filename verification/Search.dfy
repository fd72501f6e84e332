/** Looking for the first element of a sequence that meets a condition. */
module Search {

  function Is<T(==)>(x: T): T -> bool {
    y => y == x
  }

  /** The position of the first element that meets `p`, or the length if none does. */
  function FirstIndex<T>(s: seq<T>, p: T -> bool): (n: nat)
    ensures n <= |s| && (n < |s| ==> p(s[n])) && forall i :: 0 <= i < n ==> !p(s[i])
  {
    if s == [] || p(s[0]) then 0
    else
      var n := FirstIndex(s[1..], p);
      assert forall i :: 1 <= i < |s| ==> s[i] == s[1..][i-1];
      n + 1
  }

  lemma FirstIndexOf<T>(a: seq<T>, x: T, rest: seq<T>, p: T -> bool)
    requires p(x) && forall i :: 0 <= i < |a| ==> !p(a[i])
    ensures FirstIndex(a + [x] + rest, p) == |a|
  {
    hide FirstIndex;
    var s, n := a + [x] + rest, FirstIndex(a + [x] + rest, p);
    assert s[|a|] == x;
    assert forall i :: 0 <= i < |a| ==> s[i] == a[i];
  }

  lemma FirstIndexOfNone<T>(a: seq<T>, p: T -> bool)
    requires forall i :: 0 <= i < |a| ==> !p(a[i])
    ensures FirstIndex(a, p) == |a|
  {
  }
}
