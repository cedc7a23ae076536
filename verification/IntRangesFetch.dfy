/**
 * Decompression of range keys in the arithmetic of the machine: sizes are 32-bit integers
 * and so is the loop variable that runs through a range.
 */
module IntRangesFetch {
  import opened Finite
  import opened Machine
  import opened IntRanges
  import opened IntRangesOptimal

  predicate InRange(r: seq<int>, k: nat, x: int) { 2 * k + 1 < |r| && r[2 * k] <= x <= r[2 * k + 1] }

  ghost predicate InRanges(r: seq<int>, n: nat, x: int) { exists k: nat :: k < n && InRange(r, k, x) }

  // ----- Sizes -----

  /** The difference between an integer and its 32 bits, in turns. */
  function Turns(x: int): int { (x + 0x8000_0000) / 0x1_0000_0000 }

  lemma WrapTurns(x: int, k: int)
    ensures Wrap32(x) == x - Turns(x) * 0x1_0000_0000
    ensures Wrap32(x + k * 0x1_0000_0000) == Wrap32(x)
  {
  }

  lemma WrapSum(x: int, y: int)
    ensures Wrap32(Wrap32(x) + Wrap32(y)) == Wrap32(x + y)
  {
    WrapTurns(x, 0);
    WrapTurns(y, 0);
    WrapTurns(x + y, -Turns(x) - Turns(y));
  }

  lemma WrapBytes(x: int)
    ensures ArrayBytes(Wrap32(x)) == ArrayBytes(x)
  {
    WrapTurns(x, 0);
    WrapTurns(ARR_OVERHEAD + 4 * x, -4 * Turns(x));
  }

  /** Adding the length of a range in 32 bits, operation by operation. */
  lemma SizeAdds(size: int, lo: int, hi: int)
    requires Int32(lo) && Int32(hi)
    ensures Add32(Wrap32(size), Add32(Sub32(hi, lo), 1)) == Wrap32(size + hi - lo + 1)
  {
    Sub32Wraps(hi, lo);
    WrapSum(hi - lo, 1);
    WrapSum(size, hi - lo + 1);
  }

  /** `internal_size`: the number of integers in all ranges, as far as 32 bits can tell. */
  method InternalSize(a: seq<int>) returns (size: int)
    requires Ranges(a) && AllInt32(a)
    ensures size == Wrap32(TotalSize(a))
  {
    size := 0;
    var i := 0;
    ghost var k: nat := 0;
    while i < |a|
      invariant i == 2 * k <= |a| && size == Wrap32(Size(a, k))
    {
      assert Size(a, k + 1) == Size(a, k) + a[i + 1] - a[i] + 1;
      if i == 0 || a[i] != a[i - 1] {
        SizeAdds(Size(a, k), a[i], a[i + 1]);
        size := Add32(size, Add32(Sub32(a[i + 1], a[i]), 1));
      }
      i, k := i + 2, k + 1;
    }
  }

  /** The elements for which the allocated bytes have room; none if not even the header fits. */
  function Room(nbytes: int): (n: nat)
    requires Allocated(nbytes)
    ensures n <= MAX_ELEMS
  {
    if nbytes < ARR_OVERHEAD then 0 else (nbytes - ARR_OVERHEAD) / 4
  }

  // ----- Decompression -----

  /** The array, an error for want of memory, or a write behind the end of the array. */
  datatype Fetched = Fetched(a: seq<int>) | NoMemory | Overrun

  /** What decompression has written: the integers of the first `n` ranges, in order. */
  ghost predicate Written(out: seq<int>, r: seq<int>, n: nat) {
    StrictlySorted(out) && forall x :: x in out <==> InRanges(r, n, x)
  }

  /** So far all is well: the integers of the first `n` ranges, none of them the largest int. */
  ghost predicate Filled(out: seq<int>, r: seq<int>, n: nat) {
    && 2 * n <= |r| && |out| == Size(r, n) && Written(out, r, n)
    && (n > 0 ==> |out| > 0 && out[|out| - 1] == r[2 * n - 1] < INT_MAX)
  }

  /**
   * `g_int_decompress`: an array comes back if and only if its integers fit in one allocation
   * and the last of them is not the largest int.
   */
  method Decompress(din: seq<int>) returns (r: Fetched)
    requires |din| >= 2 * MAXNUMRANGE ==> Ranges(din) && AllInt32(din)
    ensures |din| < 2 * MAXNUMRANGE ==> r == Fetched(din)
    ensures |din| >= 2 * MAXNUMRANGE ==> (r.Fetched? <==> Returns(din))
    ensures |din| >= 2 * MAXNUMRANGE ==> (r.NoMemory? <==> !Allocated(ArrayBytes(TotalSize(din))))
    ensures |din| >= 2 * MAXNUMRANGE && r.Fetched? ==> |r.a| == TotalSize(din) && Written(r.a, din, |din| / 2)
  {
    if |din| < 2 * MAXNUMRANGE { return Fetched(din); }
    r := DecompressRanges(din);
  }

  ghost predicate Returns(din: seq<int>)
    requires |din| > 0 && |din| % 2 == 0
  {
    TotalSize(din) <= MAX_ELEMS && din[|din| - 1] < INT_MAX
  }

  method DecompressRanges(din: seq<int>) returns (r: Fetched)
    requires Ranges(din) && AllInt32(din) && |din| > 0
    ensures r.Fetched? <==> Returns(din)
    ensures r.NoMemory? <==> !Allocated(ArrayBytes(TotalSize(din)))
    ensures r.Fetched? ==> |r.a| == TotalSize(din) && Written(r.a, din, |din| / 2)
  {
    var lenr := InternalSize(din);
    WrapBytes(TotalSize(din));
    SizeAtLeastCount(din, |din| / 2);
    var nbytes := ArrayBytes(lenr);
    if !Allocated(nbytes) { return NoMemory; }
    EnoughRoom(TotalSize(din));
    r := FillArray(din, Room(nbytes));
  }

  /** The room is enough exactly for what fits in one allocation. */
  lemma EnoughRoom(size: nat)
    requires Allocated(ArrayBytes(size))
    ensures size <= Room(ArrayBytes(size)) <==> size <= MAX_ELEMS
  {
  }

  /** The loops of `g_int_decompress`. */
  method FillArray(din: seq<int>, room: nat) returns (r: Fetched)
    requires Ranges(din) && AllInt32(din) && |din| > 0
    ensures !r.NoMemory?
    ensures r.Fetched? <==> TotalSize(din) <= room && din[|din| - 1] < INT_MAX
    ensures r.Fetched? ==> |r.a| == TotalSize(din) && Written(r.a, din, |din| / 2)
  {
    var dr := new int[room];
    var p: nat := 0;
    var i := 0;
    ghost var k: nat := 0;
    while i < |din|
      invariant i == 2 * k <= |din| && p <= dr.Length && Filled(dr[..p], din, k)
    {
      SizeMonotone(din, k + 1, |din| / 2);
      assert din[2 * k + 1] <= din[|din| - 1];
      var ok;
      p, ok := WriteRange(dr, p, din, i, k);
      if !ok { return Overrun; }
      i, k := i + 2, k + 1;
    }
    r := Fetched(dr[..p]);
  }

  lemma {:induction false} SizeMonotone(r: seq<int>, m: nat, n: nat)
    requires Ranges(r) && m <= n && 2 * n <= |r|
    ensures Size(r, m) <= Size(r, n)
  {
    if m < n {
      assert r[2 * n - 2] <= r[2 * n - 1];
      SizeMonotone(r, m, n - 1);
    }
  }

  /**
   * The inner loop of decompression: one range, skipping an integer already written. A range
   * that ends at the largest int is never left.
   */
  method WriteRange(dr: array<int>, p0: nat, din: seq<int>, i: nat, ghost k: nat) returns (p: nat, ok: bool)
    requires Ranges(din) && AllInt32(din) && i == 2 * k < |din|
    requires p0 <= dr.Length && Filled(dr[..p0], din, k)
    modifies dr
    ensures ok <==> Size(din, k + 1) <= dr.Length && din[2 * k + 1] < INT_MAX
    ensures ok ==> p <= dr.Length && Filled(dr[..p], din, k + 1)
  {
    p := p0;
    assert k > 0 ==> dr[p0 - 1] == dr[..p0][p0 - 1];
    var j := din[i];
    ghost var len := din[i + 1] - din[i] + 1;
    assert din[i] <= din[i + 1];
    while j <= din[i + 1]
      invariant p0 <= p <= dr.Length && Int32(j)
      invariant p < p0 + len ==> j == din[i] + (p - p0)
      invariant din[i + 1] < INT_MAX ==> p <= p0 + len && j == din[i] + (p - p0)
      invariant p > p0 ==> dr[p - 1] == Wrap32(j - 1)
      invariant dr[..p0] == old(dr[..p0])
      invariant forall q | p0 <= q < p && q < p0 + len :: dr[q] == din[i] + (q - p0)
      decreases dr.Length - p
    {
      if i == 0 || dr[p - 1] != j {
        if p == dr.Length { return p, false; }
        dr[p] := j;
        p := p + 1;
      }
      j := Wrap32(j + 1);
    }
    RangeAppended(dr[..p0], dr[..p], din, k);
    return p, true;
  }

  lemma RangeAppended(before: seq<int>, after: seq<int>, r: seq<int>, k: nat)
    requires Ranges(r) && 2 * k + 1 < |r| && Written(before, r, k)
    requires |after| == |before| + (r[2 * k + 1] - r[2 * k] + 1) && after[..|before|] == before
    requires forall q | |before| <= q < |after| :: after[q] == r[2 * k] + (q - |before|)
    ensures Written(after, r, k + 1)
  {
    forall x | x in before ensures x < r[2 * k] {
      assert InRanges(r, k, x);
      var l: nat :| l < k && InRange(r, l, x);
      assert r[2 * l + 1] < r[2 * k];
    }
    forall q | 0 <= q < |before| ensures after[q] == before[q] && after[q] in before {}
    forall x ensures x in after <==> x in before || InRange(r, k, x) {
      if x in before { var q :| 0 <= q < |before| && before[q] == x; assert after[q] == x; }
      if InRange(r, k, x) { assert after[|before| + (x - r[2 * k])] == x; }
    }
    forall x ensures InRanges(r, k + 1, x) <==> InRanges(r, k, x) || InRange(r, k, x) {
      if InRanges(r, k, x) { var l: nat :| l < k && InRange(r, l, x); assert l < k + 1; }
    }
  }

  // ----- Storing and fetching -----

  /** Every integer of the array lies in some range of its compressed key. */
  lemma ShrinkSuperset(a: seq<int>, i: nat)
    requires StrictlySorted(a) && AllInt32(a) && |a| >= 2 * MAXNUMRANGE && i < |a|
    ensures Ranges(Doubled(a)) && AllInt32(Doubled(a))
    ensures InRanges(Shrink(Doubled(a)), MAXNUMRANGE, a[i])
  {
    DoubledRanges(a);
    var r := Doubled(a);
    assert HoldsAt(r, i, a[i], a[i]);
    var k := ShrinkHolds(r, i, a[i], a[i]);
    assert InRange(Shrink(r), k, a[i]);
  }

  /** Merging ranges keeps the last end. */
  lemma {:induction false} ShrinkLast(r: seq<int>)
    requires Ranges(r) && AllInt32(r) && |r| > 0
    ensures Shrink(r)[|Shrink(r)| - 1] == r[|r| - 1]
    decreases |r|
  {
    if |r| > 2 * MAXNUMRANGE {
      var c := Candidate(r);
      CandidateNarrowest(r, 1);
      CloseKeepsRanges(r, c);
      CloseLast(r, c);
      ShrinkLast(Close(r, c));
    }
  }

  lemma CloseLast(r: seq<int>, c: nat)
    requires |r| % 2 == 0 && c % 2 == 0 && 2 <= c < |r|
    ensures Close(r, c)[|Close(r, c)| - 1] == r[|r| - 1]
  {
  }

  function IntervalsOf(r: seq<int>, n: nat): (ivs: seq<Interval>)
    requires 2 * n <= |r|
    ensures |ivs| == n && forall k | 0 <= k < n :: ivs[k] == Interval(r[2 * k], r[2 * k + 1])
  {
    if n == 0 then [] else IntervalsOf(r, n - 1) + [Interval(r[2 * n - 2], r[2 * n - 1])]
  }

  /** The ranges of a key hold no more integers than their sizes add up to. */
  lemma {:induction false} IntervalsHold(r: seq<int>, n: nat)
    requires Ranges(r) && 2 * n <= |r|
    ensures |Ints(IntervalsOf(r, n))| <= Size(r, n)
  {
    if n > 0 {
      IntervalsHold(r, n - 1);
      var ivs := IntervalsOf(r, n);
      assert ivs[..n - 1] == IntervalsOf(r, n - 1);
      assert r[2 * n - 2] <= r[2 * n - 1];
      assert |Ints(ivs)| <= |Ints(ivs[..n - 1])| + |Span(r[2 * n - 2], r[2 * n - 1] + 1)|;
    }
  }

  /** The compressed key is itself a cover of the array. */
  lemma KeyIsCover(a: seq<int>) returns (ivs: seq<Interval>)
    requires StrictlySorted(a) && AllInt32(a) && |a| >= 2 * MAXNUMRANGE
    ensures Ranges(Doubled(a)) && AllInt32(Doubled(a))
    ensures IsCover(ivs, a) && |Ints(ivs)| <= TotalSize(Shrink(Doubled(a)))
  {
    DoubledRanges(a);
    var s := Shrink(Doubled(a));
    var n: nat := |s| / 2;
    ivs := IntervalsOf(s, n);
    IntervalsHold(s, n);
    forall i | 0 <= i < |a| ensures InSome(ivs, a[i]) {
      ShrinkSuperset(a, i);
      InIntervals(s, n, a[i]);
    }
  }

  lemma InIntervals(r: seq<int>, n: nat, x: int)
    requires 2 * n <= |r| && InRanges(r, n, x)
    ensures InSome(IntervalsOf(r, n), x)
  {
    var k: nat :| k < n && InRange(r, k, x);
    assert Contains(IntervalsOf(r, n)[k], x);
  }

  /** Some cover of the array by 100 intervals holds few enough integers for one allocation. */
  ghost predicate SmallCover(a: seq<int>) { exists ivs :: IsCover(ivs, a) && |Ints(ivs)| <= MAX_ELEMS }

  /** What an array must be like to survive as an inner key. */
  ghost predicate Fetchable(a: seq<int>) {
    |a| >= 2 * MAXNUMRANGE ==>
      && 2 * |a| <= MAX_ELEMS
      && a[|a| - 1] < INT_MAX
      && GapsFit(a)
      && SmallCover(a)
  }

  /** The key of an array comes back if and only if a small cover shows that it can. */
  lemma ReturnsIff(a: seq<int>)
    requires StrictlySorted(a) && AllInt32(a) && 2 * MAXNUMRANGE <= |a| && 2 * |a| <= MAX_ELEMS
    ensures Ranges(Doubled(a)) && AllInt32(Doubled(a))
    ensures Returns(Shrink(Doubled(a))) <==> Fetchable(a)
  {
    DoubledRanges(a);
    GapsOfDoubled(a);
    ShrinkLast(Doubled(a));
    SmallKeyIff(a);
  }

  lemma SmallKeyIff(a: seq<int>)
    requires StrictlySorted(a) && AllInt32(a) && 2 * MAXNUMRANGE <= |a|
    ensures Ranges(Doubled(a)) && AllInt32(Doubled(a))
    ensures TotalSize(Shrink(Doubled(a))) <= MAX_ELEMS <==> NoWideGap(Doubled(a)) && SmallCover(a)
  {
    if NoWideGap(Doubled(a)) {
      var ivs := KeyIsCover(a);
      if SmallCover(a) {
        var jvs :| IsCover(jvs, a) && |Ints(jvs)| <= MAX_ELEMS;
        ShrinkOptimal(a, jvs);
      }
    } else {
      WideGapIsLarge(a);
    }
  }

  lemma WideGapIsLarge(a: seq<int>)
    requires StrictlySorted(a) && AllInt32(a) && 2 * MAXNUMRANGE <= |a| && !NoWideGap(Doubled(a))
    ensures Ranges(Doubled(a)) && AllInt32(Doubled(a))
    ensures TotalSize(Shrink(Doubled(a))) > INT_MAX
  {
    var h, k := WideGapClosed(a);
    LongRangeSize(Shrink(Doubled(a)), k, a[h], a[h + 1]);
  }

  /** The 200 largest ints never come back, though one interval of 200 integers covers them. */
  lemma LargestIntExample() returns (a: seq<int>)
    ensures StrictlySorted(a) && AllInt32(a) && |a| == 2 * MAXNUMRANGE && SmallCover(a) && !Fetchable(a)
  {
    a := seq(2 * MAXNUMRANGE, i => INT_MAX - 2 * MAXNUMRANGE + 1 + i);
    var ivs := [Interval(a[0], INT_MAX)];
    forall i | 0 <= i < |a| ensures InSome(ivs, a[i]) { assert Contains(ivs[0], a[i]); }
    forall x | x in Ints(ivs) ensures x in Span(a[0], INT_MAX + 1) {
      var j :| 0 <= j < |ivs| && Contains(ivs[j], x);
    }
    SubsetSize(Ints(ivs), Span(a[0], INT_MAX + 1));
  }

  /**
   * What a search sees of an inner key that was stored and fetched again. If anything comes
   * back, it is a strictly sorted superset of the array, as small as intervals allow.
   */
  method StoreAndFetch(a: seq<int>) returns (b: Fetched)
    requires StrictlySorted(a) && AllInt32(a) && |a| <= MAX_ELEMS
    ensures b.Fetched? <==> Fetchable(a)
    ensures b.Fetched? ==> StrictlySorted(b.a) && forall x | x in a :: x in b.a
    ensures |a| < 2 * MAXNUMRANGE ==> b == Fetched(a)
    ensures b.Fetched? && |a| >= 2 * MAXNUMRANGE ==> forall ivs | IsCover(ivs, a) :: |b.a| <= |Ints(ivs)|
  {
    var key := Compress(a);
    if key.None? { return NoMemory; }
    b := Decompress(key.value);
    if |a| >= 2 * MAXNUMRANGE {
      ReturnsIff(a);
      ShrinkOptimalIff(a);
      if b.Fetched? {
        forall x | x in a ensures x in b.a {
          var i :| 0 <= i < |a| && a[i] == x;
          ShrinkSuperset(a, i);
        }
      }
    }
  }
}
