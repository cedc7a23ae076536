/** What stays of a list as a multiset when its elements are mapped. */
module Permutations {

  ghost predicate Defined<S, T>(f: S --> T, s: seq<S>) { forall j | 0 <= j < |s| :: f.requires(s[j]) }

  function Map<S, T>(f: S --> T, s: seq<S>): (t: seq<T>)
    requires Defined(f, s)
    ensures |t| == |s| && forall j | 0 <= j < |s| :: t[j] == f(s[j])
  {
    seq(|s|, j requires 0 <= j < |s| => f(s[j]))
  }

  lemma Without<S>(s: seq<S>, k: nat)
    requires k < |s|
    ensures multiset(s[..k] + s[k + 1..]) == multiset(s) - multiset{s[k]}
    ensures multiset(s) == multiset(s[..k] + s[k + 1..]) + multiset{s[k]}
  {
    assert s == s[..k] + [s[k]] + s[k + 1..];
  }

  lemma FindIn<S>(s: seq<S>, t: seq<S>, j: nat) returns (k: nat)
    requires j < |s| && multiset(s) == multiset(t)
    ensures k < |t| && t[k] == s[j]
  {
    assert s[j] in multiset(s);
    k :| 0 <= k < |t| && t[k] == s[j];
  }

  lemma MapWithout<S, T>(f: S --> T, s: seq<S>, k: nat)
    requires Defined(f, s) && k < |s|
    ensures Defined(f, s[..k] + s[k + 1..])
    ensures multiset(Map(f, s)) == multiset(Map(f, s[..k] + s[k + 1..])) + multiset{f(s[k])}
  {
    var t := Map(f, s);
    Without(t, k);
    assert Map(f, s[..k] + s[k + 1..]) == t[..k] + t[k + 1..];
  }

  /** Permutations of a list map to permutations of its image. */
  lemma {:induction false} MapPermuted<S, T>(f: S --> T, s: seq<S>, t: seq<S>)
    requires multiset(s) == multiset(t) && Defined(f, s) && Defined(f, t)
    ensures multiset(Map(f, s)) == multiset(Map(f, t))
    decreases |s|
  {
    if s == [] {
      assert |t| == |multiset(t)|;
    } else {
      var n := |s| - 1;
      var k := FindIn(s, t, n);
      Without(s, n);
      Without(t, k);
      MapWithout(f, s, n);
      MapWithout(f, t, k);
      MapPermuted(f, s[..n] + s[n + 1..], t[..k] + t[k + 1..]);
    }
  }
}
