/** Comparing strings without regard to case, as strings.EqualFold does. */
module CaseFolding {
  /** Case folding of characters; strings.EqualFold compares character by character under it. */
  type Folding = char -> char

  predicate EqualFold(fold: Folding, a: string, b: string) {
    |a| == |b| && forall i :: 0 <= i < |a| ==> fold(a[i]) == fold(b[i])
  }

  function Folded(fold: Folding, s: string): string {
    seq(|s|, i requires 0 <= i < |s| => fold(s[i]))
  }

  /** Two strings are equal up to case exactly if folding makes them equal. */
  lemma EqualFoldIff(fold: Folding, a: string, b: string)
    ensures EqualFold(fold, a, b) <==> Folded(fold, a) == Folded(fold, b)
  {
    if Folded(fold, a) == Folded(fold, b) {
      assert |Folded(fold, a)| == |Folded(fold, b)|;
      forall i | 0 <= i < |a| ensures fold(a[i]) == fold(b[i]) { assert Folded(fold, a)[i] == Folded(fold, b)[i]; }
    }
  }

  lemma EqualFoldIsEquivalence(fold: Folding, a: string, b: string, c: string)
    ensures EqualFold(fold, a, a) && (EqualFold(fold, a, b) <==> EqualFold(fold, b, a))
    ensures EqualFold(fold, a, b) ==> (EqualFold(fold, a, c) <==> EqualFold(fold, b, c))
  {
  }
}
