/**
 * Byte strings under the order of `byteacmp`: unsigned bytes first, length second.
 * Everything about the order is reduced to the length of the longest common prefix,
 * so that no lemma below needs an induction.
 */
module Bytea {

  type byte = x: int | 0 <= x < 256
  type bytes = seq<byte>

  /** Length of the longest common prefix, given that the first `i` bytes agree. */
  function LcpFrom(a: bytes, b: bytes, i: nat): (n: nat)
    requires i <= |a| && i <= |b|
    ensures i <= n <= |a| && n <= |b|
    ensures forall j | i <= j < n :: a[j] == b[j]
    ensures n < |a| && n < |b| ==> a[n] != b[n]
    decreases |a| - i
  {
    if i == |a| || i == |b| || a[i] != b[i] then i else LcpFrom(a, b, i + 1)
  }

  /** Length of the longest common prefix. */
  function Lcp(a: bytes, b: bytes): (n: nat)
    ensures n <= |a| && n <= |b|
    ensures forall i | 0 <= i < n :: a[i] == b[i]
    ensures n < |a| && n < |b| ==> a[n] != b[n]
  {
    LcpFrom(a, b, 0)
  }

  /** The sign convention of memcmp followed by a comparison of lengths. */
  function Cmp(a: bytes, b: bytes): int {
    var n := Lcp(a, b);
    if n < |a| && n < |b| then a[n] - b[n] else |a| - |b|
  }

  predicate Leq(a: bytes, b: bytes) { Cmp(a, b) <= 0 }

  predicate Less(a: bytes, b: bytes) { Cmp(a, b) < 0 }

  /** `p` is a (not necessarily proper) prefix of `s`. */
  predicate IsPrefix(p: bytes, s: bytes) { p <= s }

  /** The first `k` bytes, or all of them when there are fewer. */
  function Take(a: bytes, k: nat): bytes { if |a| <= k then a else a[..k] }

  /** The longest common prefix is the only length with its two properties. */
  lemma LcpIs(a: bytes, b: bytes, n: nat)
    requires n <= |a| && n <= |b|
    requires forall i | 0 <= i < n :: a[i] == b[i]
    requires n < |a| && n < |b| ==> a[n] != b[n]
    ensures Lcp(a, b) == n
  {
    if Lcp(a, b) != n { assert false; }
  }

  lemma LcpSymmetric(a: bytes, b: bytes)
    ensures Lcp(a, b) == Lcp(b, a)
  {
    LcpIs(b, a, Lcp(a, b));
  }

  lemma LeqTotal(a: bytes, b: bytes)
    ensures Cmp(a, b) == -Cmp(b, a)
    ensures Leq(a, b) || Leq(b, a)
    ensures Less(a, b) <==> !Leq(b, a)
  {
    LcpSymmetric(a, b);
  }

  lemma LeqReflexive(a: bytes)
    ensures Leq(a, a) && Lcp(a, a) == |a|
  {
    LcpIs(a, a, |a|);
  }

  lemma CmpZero(a: bytes, b: bytes)
    ensures Cmp(a, b) == 0 <==> a == b
  {
    LeqReflexive(a);
    if Cmp(a, b) == 0 {
      var n := Lcp(a, b);
      assert n == |a| == |b|;
    }
  }

  lemma LeqAntisymmetric(a: bytes, b: bytes)
    requires Leq(a, b) && Leq(b, a)
    ensures a == b
  {
    LeqTotal(a, b);
    CmpZero(a, b);
  }

  /** Of three byte strings, two of the pairwise common prefixes are equally long and shortest. */
  lemma LcpTriangle(a: bytes, b: bytes, c: bytes)
    ensures Lcp(a, c) >= Lcp(a, b) || Lcp(a, c) >= Lcp(b, c)
    ensures Lcp(a, b) < Lcp(b, c) ==> Lcp(a, c) == Lcp(a, b)
    ensures Lcp(b, c) < Lcp(a, b) ==> Lcp(a, c) == Lcp(b, c)
  {
    var m, n := Lcp(a, b), Lcp(b, c);
    if m < n {
      assert forall i | 0 <= i < m :: a[i] == b[i] == c[i];
      assert m < |b| && b[m] == c[m];
      LcpIs(a, c, m);
    } else if n < m {
      assert forall i | 0 <= i < n :: a[i] == b[i] == c[i];
      assert n < |b| && a[n] == b[n];
      LcpIs(a, c, n);
    } else {
      assert forall i | 0 <= i < m :: a[i] == b[i] == c[i];
      if Lcp(a, c) < m { assert false; }
    }
  }

  lemma LeqTransitive(a: bytes, b: bytes, c: bytes)
    requires Leq(a, b) && Leq(b, c)
    ensures Leq(a, c)
    ensures Less(a, b) || Less(b, c) ==> Less(a, c)
  {
    LcpTriangle(a, b, c);
    var m, n := Lcp(a, b), Lcp(b, c);
    if m == n && m < |a| && m < |b| && m < |c| {
      LcpIs(a, c, m);
    } else if m == n {
      assert forall i | 0 <= i < m :: a[i] == b[i] == c[i];
      assert m == |a| || m == |b|;
      if m == |a| {
        LcpIs(a, c, m);
      } else {
        assert false;
      }
    }
  }

  /** Widening an interval can only shorten the common prefix of its ends. */
  lemma LcpShrinks(a: bytes, b: bytes, c: bytes, d: bytes)
    requires Leq(a, b) && Leq(b, c) && Leq(c, d)
    ensures Lcp(a, d) <= Lcp(b, c)
  {
    LcpShrinksOnce(a, b, c);
    LeqTransitive(a, b, c);
    LcpShrinksOnce(a, c, d);
  }

  /** Of three ordered byte strings, the outer pair has the shortest common prefix. */
  lemma LcpShrinksOnce(a: bytes, b: bytes, c: bytes)
    requires Leq(a, b) && Leq(b, c)
    ensures Lcp(a, c) <= Lcp(a, b) && Lcp(a, c) <= Lcp(b, c)
  {
    LcpTriangle(a, b, c);
    LcpTriangle(b, a, c);
    LcpSymmetric(a, b);
    LcpTriangle(a, c, b);
    LcpSymmetric(b, c);
    var m := Lcp(a, b);
    if m == Lcp(b, c) && m < Lcp(a, c) {
      assert false;
    }
  }

  lemma PrefixIsLeq(p: bytes, s: bytes)
    ensures IsPrefix(p, s) <==> Lcp(p, s) == |p|
    ensures IsPrefix(p, s) ==> Leq(p, s)
  {
    if IsPrefix(p, s) {
      LcpIs(p, s, |p|);
    }
    if Lcp(p, s) == |p| {
      assert p == s[..|p|];
    }
  }

  /** A byte string between a prefix and one of its extensions starts with that prefix. */
  lemma BetweenPrefix(p: bytes, x: bytes, v: bytes)
    requires IsPrefix(p, v) && Leq(p, x) && Leq(x, v)
    ensures IsPrefix(p, x)
  {
    PrefixIsLeq(p, v);
    LcpShrinksOnce(p, x, v);
    PrefixIsLeq(p, x);
  }

  /** Below a string that does not start with `p`, but above `p`, lie all extensions of `p`. */
  lemma ExtensionsBelow(p: bytes, x: bytes, v: bytes)
    requires IsPrefix(p, v) && Leq(p, x) && !IsPrefix(p, x)
    ensures Less(v, x)
  {
    LeqTotal(v, x);
    if Leq(x, v) {
      BetweenPrefix(p, x, v);
    }
  }

  lemma TakeIsPrefix(a: bytes, k: nat)
    ensures IsPrefix(Take(a, k), a) && Leq(Take(a, k), a)
  {
    PrefixIsLeq(Take(a, k), a);
  }

  lemma LcpTake(a: bytes, b: bytes, k: nat)
    ensures Lcp(Take(a, k), Take(b, k)) == if Lcp(a, b) <= k then Lcp(a, b) else k
  {
    var n := Lcp(a, b);
    LcpIs(Take(a, k), Take(b, k), if n <= k then n else k);
  }

  lemma TakeMonotone(a: bytes, b: bytes, k: nat)
    requires Leq(a, b)
    ensures Leq(Take(a, k), Take(b, k))
  {
    LcpTake(a, b, k);
  }

  /**
   * What cutting an upper bound can lose: a string whose first `k` bytes do not exceed
   * those of `u` is either below the cut bound or an extension of it.
   */
  lemma BelowCut(v: bytes, u: bytes, k: nat)
    requires Leq(Take(v, k), Take(u, k))
    ensures Leq(v, Take(u, k)) || (IsPrefix(Take(u, k), v) && |Take(u, k)| == k)
  {
    var c, w := Take(u, k), Take(v, k);
    if c == w && |c| == k {
      TakeIsPrefix(v, k);
    } else if w == v {
    } else {
      PrefixIsLeq(w, c);
      var n := Lcp(w, c);
      assert n < |w| && n < |c|;
      LcpIs(v, c, n);
    }
  }
}
