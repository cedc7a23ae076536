/**
 * What range compression costs: the compressed key decompresses to a superset of the
 * array, and no cover of the array by as many intervals holds fewer integers - unless a
 * gap is too wide for a 32-bit difference.
 */
module IntRangesOptimal {
  import opened Finite
  import opened Machine
  import opened IntRanges

  // ----- Sizes and gaps of flattened ranges -----

  /** Number of integers in the first `k` ranges. */
  function Size(r: seq<int>, k: nat): int
    requires 2 * k <= |r|
  {
    if k == 0 then 0 else Size(r, k - 1) + r[2 * k - 1] - r[2 * k - 2] + 1
  }

  function TotalSize(r: seq<int>): int
    requires |r| % 2 == 0
  {
    Size(r, |r| / 2)
  }

  /** Integers strictly between range `k - 1` and range `k`. */
  function Hole(r: seq<int>, k: nat): int
    requires 1 <= k && 2 * k < |r|
  {
    r[2 * k] - r[2 * k - 1] - 1
  }

  function Over(x: int, t: int): int { if x > t then x - t else 0 }

  /** How far the first `k` holes exceed the threshold `t`, in all. */
  function Excess(r: seq<int>, k: nat, t: int): int
    requires k == 0 || 2 * k < |r|
  {
    if k == 0 then 0 else Excess(r, k - 1, t) + Over(Hole(r, k), t)
  }

  function TotalExcess(r: seq<int>, t: int): int
    requires |r| % 2 == 0 && |r| > 0
  {
    Excess(r, |r| / 2 - 1, t)
  }

  /** Closing a gap shifts the ranges behind it by one and joins the two around it. */
  lemma {:induction false} CloseSums(r: seq<int>, c: nat, k: nat, t: int)
    requires |r| % 2 == 0 && 1 <= c && 2 * c < |r| && c <= k && 2 * k < |r|
    ensures Size(Close(r, 2 * c), k) == Size(r, k + 1) + Hole(r, c)
    ensures Excess(Close(r, 2 * c), k - 1, t) == Excess(r, k, t) - Over(Hole(r, c), t)
  {
    var s := Close(r, 2 * c);
    if k == c {
      CloseSumsBefore(r, c, c - 1, t);
      assert s[2 * c - 1] == r[2 * c + 1] && s[2 * c - 2] == r[2 * c - 2];
    } else {
      CloseSums(r, c, k - 1, t);
      assert s[2 * k - 1] == r[2 * k + 1] && s[2 * k - 2] == r[2 * k];
      assert Hole(s, k - 1) == Hole(r, k);
    }
  }

  lemma {:induction false} CloseSumsBefore(r: seq<int>, c: nat, k: nat, t: int)
    requires |r| % 2 == 0 && 1 <= c && 2 * c < |r| && k < c
    ensures Size(Close(r, 2 * c), k) == Size(r, k)
    ensures Excess(Close(r, 2 * c), k, t) == Excess(r, k, t)
  {
    if k > 0 {
      CloseSumsBefore(r, c, k - 1, t);
      var s := Close(r, 2 * c);
      assert s[2 * k - 1] == r[2 * k - 1] && s[2 * k - 2] == r[2 * k - 2] && s[2 * k] == r[2 * k];
    }
  }

  lemma CloseTotals(r: seq<int>, c: nat, t: int)
    requires |r| % 2 == 0 && 1 <= c && 2 * c < |r|
    ensures |Close(r, 2 * c)| == |r| - 2
    ensures TotalSize(Close(r, 2 * c)) == TotalSize(r) + Hole(r, c)
    ensures TotalExcess(Close(r, 2 * c), t) == TotalExcess(r, t) - Over(Hole(r, c), t)
  {
    CloseSums(r, c, |r| / 2 - 1, t);
  }

  /** The holes that remain after closing one are holes of the original. */
  function HoleOrigin(c: nat, k: nat): nat { if k < c then k else k + 1 }

  lemma CloseHoles(r: seq<int>, c: nat, k: nat)
    requires |r| % 2 == 0 && 1 <= c && 2 * c < |r| && 1 <= k && 2 * k < |r| - 2
    ensures |Close(r, 2 * c)| == |r| - 2
    ensures Hole(Close(r, 2 * c), k) == Hole(r, HoleOrigin(c, k))
  {
    var s := Close(r, 2 * c);
    assert s[2 * k] == if 2 * k < 2 * c - 1 then r[2 * k] else r[2 * k + 2];
    assert s[2 * k - 1] == if 2 * k - 1 < 2 * c - 1 then r[2 * k - 1] else r[2 * k + 1];
  }

  /** No gap is too wide for a 32-bit difference. */
  ghost predicate NoWideGap(r: seq<int>) {
    forall k | 1 <= k && 2 * k < |r| :: Hole(r, k) < INT_MAX
  }

  ghost predicate HolesAtLeast(r: seq<int>, t: int) {
    forall k | 1 <= k && 2 * k < |r| :: Hole(r, k) >= t
  }

  lemma RangesHoles(r: seq<int>)
    requires Ranges(r)
    ensures HolesAtLeast(r, 0)
  {
    forall k | 1 <= k && 2 * k < |r| ensures Hole(r, k) >= 0 {
      assert r[2 * k - 1] < r[2 * k];
    }
  }

  /** Without wide gaps, the narrowest 32-bit difference is the smallest hole. */
  lemma NarrowestIsSmallest(r: seq<int>, c: nat)
    requires Ranges(r) && AllInt32(r) && NoWideGap(r) && Narrowest(r, c)
    ensures HolesAtLeast(r, Hole(r, c / 2)) && Hole(r, c / 2) >= 0
  {
    RangesHoles(r);
    forall k | 1 <= k && 2 * k < |r| ensures Hole(r, k) == Gap32(r, k) - 1 {
      assert 0 <= Hole(r, k) < INT_MAX;
    }
  }

  lemma CloseKeepsHoles(r: seq<int>, c: nat, t: int)
    requires |r| % 2 == 0 && 1 <= c && 2 * c < |r| && NoWideGap(r) && HolesAtLeast(r, t)
    ensures NoWideGap(Close(r, 2 * c)) && HolesAtLeast(Close(r, 2 * c), t)
  {
    var s := Close(r, 2 * c);
    forall k | 1 <= k && 2 * k < |s| ensures Hole(s, k) == Hole(r, HoleOrigin(c, k)) {
      CloseHoles(r, c, k);
    }
  }

  /**
   * A threshold that separates what was closed from what was kept: closed holes do not
   * exceed it, so they leave the excess alone; kept holes reach it.
   */
  lemma {:induction false} ShrinkThreshold(r: seq<int>, b: nat) returns (t: nat)
    requires Ranges(r) && AllInt32(r) && |r| > 0 && NoWideGap(r) && HolesAtLeast(r, b)
    ensures t >= b && HolesAtLeast(Shrink(r), t)
    ensures TotalExcess(Shrink(r), t) == TotalExcess(r, t)
    decreases |r|
  {
    t := b;
    if |r| > 2 * MAXNUMRANGE {
      var c := Candidate(r);
      CandidateNarrowest(r, 1);
      CloseKeepsRanges(r, c);
      NarrowestIsSmallest(r, c);
      CloseKeepsHoles(r, c / 2, Hole(r, c / 2));
      assert Hole(r, c / 2) >= b;
      t := ShrinkThreshold(Close(r, c), Hole(r, c / 2));
      CloseTotals(r, c / 2, t);
    }
  }

  /** Integers in ranges plus integers in holes stay the same. */
  lemma {:induction false} ShrinkConserves(r: seq<int>)
    requires Ranges(r) && AllInt32(r) && |r| > 0
    ensures TotalSize(Shrink(r)) + TotalExcess(Shrink(r), 0) == TotalSize(r) + TotalExcess(r, 0)
    decreases |r|
  {
    if |r| > 2 * MAXNUMRANGE {
      var c := Candidate(r);
      CandidateNarrowest(r, 1);
      CloseKeepsRanges(r, c);
      ShrinkConserves(Close(r, c));
      CloseTotals(r, c / 2, 0);
      RangesHoles(r);
    }
  }

  /** Holes that all reach the threshold exceed zero by the threshold more. */
  lemma {:induction false} ExcessAbove(r: seq<int>, k: nat, t: nat)
    requires (k == 0 || 2 * k < |r|) && HolesAtLeast(r, t)
    ensures Excess(r, k, 0) == Excess(r, k, t) + t * k
  {
    if k > 0 {
      ExcessAbove(r, k - 1, t);
      assert t * k == t * (k - 1) + t;
    }
  }

  // ----- Covers by intervals -----

  datatype Interval = Interval(lo: int, hi: int)

  predicate Contains(iv: Interval, x: int) { iv.lo <= x <= iv.hi }

  /** The integers from `lo` up to, but not including, `hi`. */
  ghost function Span(lo: int, hi: int): (s: set<int>)
    ensures forall x :: x in s <==> lo <= x < hi
    ensures |s| == if lo <= hi then hi - lo else 0
    decreases hi - lo
  {
    if lo >= hi then {} else Span(lo, hi - 1) + {hi - 1}
  }

  /** All integers that the intervals hold. */
  ghost function Ints(ivs: seq<Interval>): (s: set<int>)
    ensures forall x :: x in s <==> InSome(ivs, x)
  {
    if ivs == [] then {} else
      var last := ivs[|ivs| - 1];
      var rest := ivs[..|ivs| - 1];
      assert forall x :: InSome(ivs, x) <==> InSome(rest, x) || Contains(last, x) by {
        forall x ensures InSome(ivs, x) <==> InSome(rest, x) || Contains(last, x) {
          if InSome(rest, x) {
            var j :| 0 <= j < |rest| && Contains(rest[j], x);
            assert Contains(ivs[j], x);
          }
          if InSome(ivs, x) {
            var j :| 0 <= j < |ivs| && Contains(ivs[j], x);
            if j < |rest| { assert Contains(rest[j], x); }
          }
        }
      }
      Ints(rest) + Span(last.lo, last.hi + 1)
  }

  ghost predicate InSome(ivs: seq<Interval>, x: int) { exists j :: 0 <= j < |ivs| && Contains(ivs[j], x) }

  ghost predicate IsCover(ivs: seq<Interval>, a: seq<int>) {
    && |ivs| <= MAXNUMRANGE
    && forall i | 0 <= i < |a| :: InSome(ivs, a[i])
  }

  ghost function UpTo(s: set<int>, x: int): set<int> { set y | y in s && y <= x }

  /** A cover gains one integer per element, and the whole hole where one interval bridges it. */
  lemma BridgedStep(s: set<int>, x: int, y: int, bridged: bool)
    requires x < y && y in s && (bridged ==> Span(x + 1, y + 1) <= s)
    ensures |UpTo(s, y)| >= |UpTo(s, x)| + (if bridged then y - x else 1)
  {
    var more := if bridged then Span(x + 1, y + 1) else {y};
    assert UpTo(s, x) !! more;
    assert |UpTo(s, x) + more| == |UpTo(s, x)| + |more|;
    SubsetSize(UpTo(s, x) + more, UpTo(s, y));
  }

  ghost predicate Bridges(iv: Interval, a: seq<int>, k: nat)
    requires k + 1 < |a|
  {
    Contains(iv, a[k]) && Contains(iv, a[k + 1])
  }

  /** Integers needed up to element `k` when `m` holes before it stay open. */
  function Bound(a: seq<int>, k: nat, t: nat, m: nat): int
    requires k < |a|
  {
    k + 1 + Excess(Doubled(a), k, 0) - Excess(Doubled(a), k, t) - t * m
  }

  lemma BoundStep(a: seq<int>, k: nat, t: nat, m: nat)
    requires 0 < k < |a| && StrictlySorted(a)
    ensures Bound(a, k, t, m) <= Bound(a, k - 1, t, m) + (a[k] - a[k - 1])
    ensures Bound(a, k, t, m + 1) <= Bound(a, k - 1, t, m) + 1
  {
    assert Hole(Doubled(a), k) == a[k] - a[k - 1] - 1 >= 0;
    assert t * (m + 1) == t * m + t;
  }

  /**
   * A lower bound on any cover of the first elements, for every threshold: each hole
   * left open uses up one more interval, collected in `d`, and saves at most the
   * threshold plus its excess.
   */
  lemma {:induction false} CoverBound(a: seq<int>, ivs: seq<Interval>, s: set<int>, t: nat, k: nat)
    returns (d: set<nat>)
    requires StrictlySorted(a) && IsCover(ivs, a) && k < |a| && HoldsAll(s, ivs)
    ensures UsedUp(d, ivs, a, k) && |UpTo(s, a[k])| >= Bound(a, k, t, |d|)
  {
    assert InSome(ivs, a[k]);
    if k == 0 {
      d := {};
      SubsetSize({a[0]}, UpTo(s, a[0]));
    } else {
      d := CoverBound(a, ivs, s, t, k - 1);
      d := CoverStep(a, ivs, s, t, k, d);
    }
  }

  ghost predicate HoldsAll(s: set<int>, ivs: seq<Interval>) { forall x :: x in s <==> InSome(ivs, x) }

  /** The intervals numbered in `d` hold no element from position `k` on. */
  ghost predicate UsedUp(d: set<nat>, ivs: seq<Interval>, a: seq<int>, k: nat) {
    forall j | j in d :: j < |ivs| && forall l | k <= l < |a| :: !Contains(ivs[j], a[l])
  }

  lemma CoverStep(a: seq<int>, ivs: seq<Interval>, s: set<int>, t: nat, k: nat, d: set<nat>)
    returns (d': set<nat>)
    requires StrictlySorted(a) && IsCover(ivs, a) && 0 < k < |a| && HoldsAll(s, ivs)
    requires UsedUp(d, ivs, a, k - 1) && |UpTo(s, a[k - 1])| >= Bound(a, k - 1, t, |d|)
    ensures UsedUp(d', ivs, a, k) && |UpTo(s, a[k])| >= Bound(a, k, t, |d'|)
  {
    BoundStep(a, k, t, |d|);
    assert InSome(ivs, a[k]);
    if i :| 0 <= i < |ivs| && Bridges(ivs[i], a, k - 1) {
      BridgeInside(ivs, i, a, k - 1, s);
      BridgedStep(s, a[k - 1], a[k], true);
      d' := d;
    } else {
      BridgedStep(s, a[k - 1], a[k], false);
      d' := OneMoreUsed(a, ivs, k, d);
    }
  }

  lemma BridgeInside(ivs: seq<Interval>, i: nat, a: seq<int>, k: nat, s: set<int>)
    requires i < |ivs| && k + 1 < |a| && Bridges(ivs[i], a, k) && HoldsAll(s, ivs)
    ensures Span(a[k] + 1, a[k + 1] + 1) <= s
  {
    forall x | x in Span(a[k] + 1, a[k + 1] + 1) ensures x in s {
      assert Contains(ivs[i], x);
    }
  }

  /** At an open hole, an interval of the left element has no use for elements to the right. */
  lemma OneMoreUsed(a: seq<int>, ivs: seq<Interval>, k: nat, d: set<nat>) returns (d': set<nat>)
    requires StrictlySorted(a) && IsCover(ivs, a) && 0 < k < |a|
    requires UsedUp(d, ivs, a, k - 1)
    requires forall i | 0 <= i < |ivs| :: !Bridges(ivs[i], a, k - 1)
    ensures |d'| == |d| + 1
    ensures UsedUp(d', ivs, a, k)
  {
    assert InSome(ivs, a[k - 1]);
    var j: nat :| j < |ivs| && Contains(ivs[j], a[k - 1]);
    assert j !in d;
    d' := d + {j};
    forall l | k <= l < |a| ensures !Contains(ivs[j], a[l]) {
      assert !Bridges(ivs[j], a, k - 1);
      if l > k { assert a[k] < a[l]; }
    }
  }

  lemma {:induction false} NatsBelow(d: set<nat>, n: nat)
    requires forall j | j in d :: j < n
    ensures |d| <= n
  {
    if n == 0 {
      assert d == {};
    } else {
      NatsBelow(d - {n - 1}, n - 1);
    }
  }

  lemma DoubledSums(a: seq<int>, k: nat)
    requires k <= |a|
    ensures Size(Doubled(a), k) == k
  {
    if k > 0 { DoubledSums(a, k - 1); }
  }

  /** The size of the compressed key meets the bound with equality, for some threshold. */
  lemma ShrinkMeetsBound(a: seq<int>) returns (t: nat)
    requires StrictlySorted(a) && AllInt32(a) && |a| >= 2 * MAXNUMRANGE && NoWideGap(Doubled(a))
    ensures Ranges(Doubled(a)) && AllInt32(Doubled(a))
    ensures TotalSize(Shrink(Doubled(a))) == Bound(a, |a| - 1, t, MAXNUMRANGE - 1)
  {
    DoubledRanges(a);
    var r := Doubled(a);
    assert |r| / 2 == |a|;
    DoubledSums(a, |a|);
    t := ShrinkSize(r);
    assert TotalExcess(r, t) == Excess(r, |a| - 1, t) && TotalExcess(r, 0) == Excess(r, |a| - 1, 0);
  }

  lemma ShrinkSize(r: seq<int>) returns (t: nat)
    requires Ranges(r) && AllInt32(r) && |r| >= 2 * MAXNUMRANGE && NoWideGap(r)
    ensures TotalSize(Shrink(r))
            == TotalSize(r) + TotalExcess(r, 0) - TotalExcess(r, t) - t * (MAXNUMRANGE - 1)
  {
    RangesHoles(r);
    t := ShrinkThreshold(r, 0);
    ShrinkConserves(r);
    ExcessAbove(Shrink(r), MAXNUMRANGE - 1, t);
  }

  /** Optimality: without wide gaps, no cover holds fewer integers than the compressed key. */
  lemma ShrinkOptimal(a: seq<int>, ivs: seq<Interval>)
    requires StrictlySorted(a) && AllInt32(a) && |a| >= 2 * MAXNUMRANGE
    requires NoWideGap(Doubled(a)) && IsCover(ivs, a)
    ensures Ranges(Doubled(a)) && AllInt32(Doubled(a))
    ensures TotalSize(Shrink(Doubled(a))) <= |Ints(ivs)|
  {
    var n := |a| - 1;
    var t := ShrinkMeetsBound(a);
    var d := CoverBound(a, ivs, Ints(ivs), t, n);
    LastIntervalUnused(a, ivs, d);
    BoundMonotone(a, n, t, |d|, MAXNUMRANGE - 1);
    SubsetSize(UpTo(Ints(ivs), a[n]), Ints(ivs));
  }

  lemma BoundMonotone(a: seq<int>, k: nat, t: nat, m: nat, n: nat)
    requires k < |a| && m <= n
    ensures Bound(a, k, t, n) <= Bound(a, k, t, m)
  {
    assert t * n == t * m + t * (n - m);
  }

  lemma LastIntervalUnused(a: seq<int>, ivs: seq<Interval>, d: set<nat>)
    requires IsCover(ivs, a) && |a| > 0
    requires UsedUp(d, ivs, a, |a| - 1)
    ensures |d| <= MAXNUMRANGE - 1
  {
    assert InSome(ivs, a[|a| - 1]);
    var j: nat :| j < |ivs| && Contains(ivs[j], a[|a| - 1]);
    NatsBelow(d + {j}, |ivs|);
  }

  // ----- Wide gaps -----

  /** Range `k` of `r` holds the whole of `lo..hi`. */
  ghost predicate HoldsAt(r: seq<int>, k: nat, lo: int, hi: int) {
    2 * k + 1 < |r| && r[2 * k] <= lo && hi <= r[2 * k + 1]
  }

  /** Merging ranges never gives up what one of them held. */
  lemma {:induction false} ShrinkHolds(r: seq<int>, k: nat, lo: int, hi: int) returns (k': nat)
    requires Ranges(r) && AllInt32(r) && HoldsAt(r, k, lo, hi)
    ensures HoldsAt(Shrink(r), k', lo, hi)
    decreases |r|
  {
    k' := k;
    if |r| > 2 * MAXNUMRANGE {
      var c := Candidate(r);
      CandidateNarrowest(r, 1);
      CloseKeepsRanges(r, c);
      k' := CloseHolds(r, c / 2, k, lo, hi);
      k' := ShrinkHolds(Close(r, c), k', lo, hi);
    }
  }

  lemma CloseHolds(r: seq<int>, c: nat, k: nat, lo: int, hi: int) returns (k': nat)
    requires Ranges(r) && 1 <= c && 2 * c < |r| && HoldsAt(r, k, lo, hi)
    ensures HoldsAt(Close(r, 2 * c), k', lo, hi)
  {
    k' := if k < c then k else k - 1;
    var s := Close(r, 2 * c);
    assert s[2 * k'] == if 2 * k' < 2 * c - 1 then r[2 * k'] else r[2 * k' + 2];
    assert s[2 * k' + 1] == if 2 * k' + 1 < 2 * c - 1 then r[2 * k' + 1] else r[2 * k' + 3];
    assert r[2 * k' + 1] <= r[2 * k + 1];
    assert s[2 * k'] <= r[2 * k] && r[2 * k + 1] <= s[2 * k' + 1];
  }

  /** Every range holds at least one integer, so one long range makes for a large total. */
  lemma {:induction false} SizeAtLeast(r: seq<int>, n: nat, k: nat, lo: int, hi: int)
    requires Ranges(r) && 2 * n <= |r| && k < n && HoldsAt(r, k, lo, hi)
    ensures Size(r, n) >= hi - lo + n
  {
    assert r[2 * n - 2] <= r[2 * n - 1];
    if k == n - 1 {
      SizeAtLeastCount(r, n - 1);
    } else {
      SizeAtLeast(r, n - 1, k, lo, hi);
    }
  }

  lemma {:induction false} SizeAtLeastCount(r: seq<int>, n: nat)
    requires Ranges(r) && 2 * n <= |r|
    ensures Size(r, n) >= n
  {
    if n > 0 {
      assert r[2 * n - 2] <= r[2 * n - 1];
      SizeAtLeastCount(r, n - 1);
    }
  }

  /** With a wide gap, the first pass picks a wide gap: its 32-bit difference is negative. */
  lemma WideCandidate(r: seq<int>)
    requires Ranges(r) && AllInt32(r) && |r| >= 8 && !NoWideGap(r)
    ensures Narrowest(r, Candidate(r))
    ensures r[Candidate(r)] - r[Candidate(r) - 1] > INT_MAX
  {
    CandidateNarrowest(r, 1);
    var w :| 1 <= w && 2 * w < |r| && Hole(r, w) >= INT_MAX;
    assert Gap32(r, w) < 0;
    var c := Candidate(r);
    assert Gap32(r, c / 2) < 0;
    assert r[c - 1] < r[c];
  }

  /** Closing gap `c` joins the two ranges around it into one. */
  lemma CloseJoins(r: seq<int>, c: nat)
    requires Ranges(r) && 1 <= c && 2 * c < |r|
    ensures HoldsAt(Close(r, 2 * c), c - 1, r[2 * c - 1], r[2 * c])
  {
    var s := Close(r, 2 * c);
    assert s[2 * c - 2] == r[2 * c - 2] <= r[2 * c - 1];
    assert s[2 * c - 1] == r[2 * c + 1] >= r[2 * c];
  }

  lemma WideGapClosed(a: seq<int>) returns (h: nat, k: nat)
    requires StrictlySorted(a) && AllInt32(a) && |a| >= 2 * MAXNUMRANGE && !NoWideGap(Doubled(a))
    ensures Ranges(Doubled(a)) && AllInt32(Doubled(a))
    ensures h + 1 < |a| && a[h + 1] - a[h] > INT_MAX
    ensures HoldsAt(Shrink(Doubled(a)), k, a[h], a[h + 1])
  {
    DoubledRanges(a);
    var r := Doubled(a);
    WideCandidate(r);
    var c := Candidate(r) / 2;
    h := c - 1;
    assert r[2 * c] == a[h + 1] && r[2 * c - 1] == a[h];
    CloseKeepsRanges(r, 2 * c);
    assert Shrink(r) == Shrink(Close(r, 2 * c));
    CloseJoins(r, c);
    k := ShrinkHolds(Close(r, 2 * c), h, a[h], a[h + 1]);
  }

  lemma LongRangeSize(s: seq<int>, k: nat, lo: int, hi: int)
    requires Ranges(s) && |s| == 2 * MAXNUMRANGE && HoldsAt(s, k, lo, hi)
    ensures TotalSize(s) >= hi - lo + MAXNUMRANGE
  {
    SizeAtLeast(s, MAXNUMRANGE, k, lo, hi);
  }

  /** Two intervals that leave only the wide gap open beat the compressed key. */
  lemma WideGapLoses(a: seq<int>) returns (ivs: seq<Interval>)
    requires StrictlySorted(a) && AllInt32(a) && |a| >= 2 * MAXNUMRANGE && !NoWideGap(Doubled(a))
    ensures Ranges(Doubled(a)) && AllInt32(Doubled(a))
    ensures IsCover(ivs, a) && |Ints(ivs)| < TotalSize(Shrink(Doubled(a)))
  {
    var h, k := WideGapClosed(a);
    LongRangeSize(Shrink(Doubled(a)), k, a[h], a[h + 1]);
    ivs := TwoIntervals(a, h);
  }

  lemma TwoIntervals(a: seq<int>, h: nat) returns (ivs: seq<Interval>)
    requires StrictlySorted(a) && AllInt32(a) && h + 1 < |a| && a[h + 1] - a[h] > INT_MAX
    ensures IsCover(ivs, a) && |Ints(ivs)| <= INT_MAX + 2
  {
    var n := |a| - 1;
    var left, right := Interval(a[0], a[h]), Interval(a[h + 1], a[n]);
    ivs := [left, right];
    forall i | 0 <= i < |a| ensures InSome(ivs, a[i]) {
      assert Contains(ivs[if i <= h then 0 else 1], a[i]);
    }
    var l, r := Span(left.lo, left.hi + 1), Span(right.lo, right.hi + 1);
    forall x | x in Ints(ivs) ensures x in l + r {
      var j :| 0 <= j < |ivs| && Contains(ivs[j], x);
    }
    SubsetSize(Ints(ivs), l + r);
    assert |l + r| <= |l| + |r|;
  }

  /** Neighbours are not farther apart than the largest int. */
  ghost predicate GapsFit(a: seq<int>) { forall i | 0 <= i < |a| - 1 :: a[i + 1] - a[i] <= INT_MAX }

  /** No cover beats the compressed key if and only if no gap is too wide for 32 bits. */
  lemma ShrinkOptimalIff(a: seq<int>)
    requires StrictlySorted(a) && AllInt32(a) && |a| >= 2 * MAXNUMRANGE
    ensures Ranges(Doubled(a)) && AllInt32(Doubled(a))
    ensures (forall ivs | IsCover(ivs, a) :: TotalSize(Shrink(Doubled(a))) <= |Ints(ivs)|)
            <==> GapsFit(a)
  {
    DoubledRanges(a);
    GapsOfDoubled(a);
    if NoWideGap(Doubled(a)) {
      forall ivs | IsCover(ivs, a) ensures TotalSize(Shrink(Doubled(a))) <= |Ints(ivs)| {
        ShrinkOptimal(a, ivs);
      }
    } else {
      var ivs := WideGapLoses(a);
    }
  }

  lemma GapsOfDoubled(a: seq<int>)
    ensures NoWideGap(Doubled(a)) <==> GapsFit(a)
  {
    var r := Doubled(a);
    if NoWideGap(r) {
      forall i | 0 <= i < |a| - 1 ensures a[i + 1] - a[i] <= INT_MAX {
        assert Hole(r, i + 1) == a[i + 1] - a[i] - 1;
      }
    } else {
      var k :| 1 <= k && 2 * k < |r| && Hole(r, k) >= INT_MAX;
      assert Hole(r, k) == a[k] - a[k - 1] - 1 && 0 <= k - 1 < |a| - 1;
      assert a[(k - 1) + 1] - a[k - 1] > INT_MAX;
    }
  }

  /** The least int and the ints from 0 to 198: closing the gap behind the first costs more than two intervals. */
  lemma WideGapExample() returns (a: seq<int>, ivs: seq<Interval>)
    ensures StrictlySorted(a) && AllInt32(a) && |a| == 2 * MAXNUMRANGE && !GapsFit(a)
    ensures Ranges(Doubled(a)) && AllInt32(Doubled(a))
    ensures IsCover(ivs, a) && |Ints(ivs)| < TotalSize(Shrink(Doubled(a)))
  {
    a := seq(2 * MAXNUMRANGE, i => if i == 0 then INT_MIN else i - 1);
    assert a[0 + 1] - a[0] > INT_MAX;
    GapsOfDoubled(a);
    ivs := WideGapLoses(a);
  }
}
