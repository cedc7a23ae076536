/** Sizes of finite sets. */
module Finite {

  lemma {:induction false} SubsetSize<T>(a: set<T>, b: set<T>)
    requires a <= b
    ensures |a| <= |b|
  {
    assert b == a + (b - a);
  }

  /** A list that is longer than the set of its elements has an element twice. */
  lemma {:induction false} Repeats<T>(s: seq<T>, elements: set<T>) returns (i: nat, j: nat)
    requires |s| > |elements| && forall k | 0 <= k < |s| :: s[k] in elements
    ensures i < j < |s| && s[i] == s[j]
  {
    j := |s| - 1;
    if k :| 0 <= k < j && s[k] == s[j] {
      i := k;
    } else {
      i, j := Repeats(s[..j], elements - {s[j]});
    }
  }
}
