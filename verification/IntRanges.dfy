/**
 * Range compression of intarray's inner GiST keys: a sorted array of distinct 32-bit
 * integers is stored as at most MAXNUMRANGE ranges, found by repeatedly closing the
 * narrowest gap. Ranges are kept flattened, as in the source: lo, hi, lo, hi, ...
 */
module IntRanges {
  import opened Machine
  import opened Options

  const MAXNUMRANGE := 100

  /** 32-bit subtraction with wrap-around. */
  function Sub32(x: int, y: int): int
    requires Int32(x) && Int32(y)
  {
    if x - y > INT_MAX then x - y - 0x1_0000_0000
    else if x - y < INT_MIN then x - y + 0x1_0000_0000
    else x - y
  }

  lemma Sub32Wraps(x: int, y: int)
    requires Int32(x) && Int32(y)
    ensures Sub32(x, y) == Wrap32(x - y)
  {
  }

  /** An array of integers has a header of this many bytes; this many integers fit in one allocation. */
  const ARR_OVERHEAD := 24
  const MAX_ELEMS := (MAX_ALLOC - ARR_OVERHEAD) / 4

  /** `new_intArrayType` and `resize_intArrayType`: the size in bytes of an array, as an int. */
  function ArrayBytes(num: int): int { Wrap32(ARR_OVERHEAD + 4 * num) }

  predicate Allocated(nbytes: int) { 0 <= nbytes <= MAX_ALLOC }

  ghost predicate AllInt32(a: seq<int>) { forall i | 0 <= i < |a| :: Int32(a[i]) }

  ghost predicate StrictlySorted(a: seq<int>) { forall i, j | 0 <= i < j < |a| :: a[i] < a[j] }

  /** Flattened non-empty ranges in ascending order, no two of them touching in one integer. */
  ghost predicate Ranges(r: seq<int>) {
    && |r| % 2 == 0
    && (forall i, j | 0 <= i < j < |r| :: r[i] <= r[j])
    && (forall i, j | 0 <= i < j < |r| && i % 2 == 1 :: r[i] < r[j])
  }

  // ----- Closing a gap -----

  /** Merges the range that starts at position `c` with the one before it. */
  function Close(r: seq<int>, c: nat): seq<int>
    requires 2 <= c < |r|
  {
    r[..c - 1] + r[c + 1..]
  }

  /** The 32-bit difference across gap number `k`, which ends at position `2 * k`. */
  function Gap32(r: seq<int>, k: nat): int
    requires AllInt32(r) && 1 <= k && 2 * k < |r|
  {
    Sub32(r[2 * k], r[2 * k - 1])
  }

  /** The scan of one pass for the narrowest gap, from gap number `k` on. */
  function Scan(r: seq<int>, k: nat, min: int, cand: nat): nat
    requires AllInt32(r) && k >= 1
    decreases |r| - k
  {
    if 2 * k >= |r| then cand
    else if min > Gap32(r, k) then Scan(r, k + 1, Gap32(r, k), 2 * k)
    else Scan(r, k + 1, min, cand)
  }

  /** Position `c` ends one of the narrowest gaps, as 32-bit differences. */
  ghost predicate Narrowest(r: seq<int>, c: nat)
    requires AllInt32(r)
  {
    && c % 2 == 0 && 2 <= c < |r|
    && forall k | 1 <= k && 2 * k < |r| :: Gap32(r, c / 2) <= Gap32(r, k)
  }

  lemma {:induction false} ScanNarrowest(r: seq<int>, k: nat, min: int, c: nat)
    requires AllInt32(r) && k >= 1
    requires forall l | 1 <= l < k && 2 * l < |r| :: min <= Gap32(r, l)
    requires 1 <= c && 2 * c < |r| && Gap32(r, c) == min
    ensures Narrowest(r, Scan(r, k, min, 2 * c))
    decreases |r| - k
  {
    if 2 * k < |r| {
      if min > Gap32(r, k) {
        ScanNarrowest(r, k + 1, Gap32(r, k), k);
      } else {
        ScanNarrowest(r, k + 1, min, c);
      }
    }
  }

  /** Whatever candidate an earlier pass left behind, some gap below INT_MAX replaces it. */
  lemma {:induction false} ScanFindsGap(r: seq<int>, k: nat, cand: nat, small: nat)
    requires AllInt32(r) && k >= 1
    requires k <= small && 2 * small < |r| && Gap32(r, small) < INT_MAX
    requires forall l | 1 <= l < k && 2 * l < |r| :: INT_MAX <= Gap32(r, l)
    ensures Narrowest(r, Scan(r, k, INT_MAX, cand))
    ensures Scan(r, k, INT_MAX, cand) == Scan(r, k, INT_MAX, 1)
    decreases |r| - k
  {
    if INT_MAX > Gap32(r, k) {
      ScanNarrowest(r, k + 1, Gap32(r, k), k);
    } else {
      ScanFindsGap(r, k + 1, cand, small);
    }
  }

  /** Of three gaps between four ranges of 32-bit integers, one is below INT_MAX even as a difference. */
  lemma SomeSmallGap(r: seq<int>) returns (k: nat)
    requires Ranges(r) && AllInt32(r) && |r| >= 8
    ensures 1 <= k && 2 * k < |r| && Gap32(r, k) < INT_MAX
  {
    assert r[0] <= r[1] && r[2] <= r[3] && r[4] <= r[5];
    k := if r[2] - r[1] != INT_MAX then 1 else if r[4] - r[3] != INT_MAX then 2 else 3;
  }

  function Candidate(r: seq<int>): nat
    requires AllInt32(r)
  {
    Scan(r, 1, INT_MAX, 1)
  }

  lemma CandidateNarrowest(r: seq<int>, cand: nat)
    requires Ranges(r) && AllInt32(r) && |r| >= 8
    ensures Narrowest(r, Candidate(r)) && Scan(r, 1, INT_MAX, cand) == Candidate(r)
  {
    var k := SomeSmallGap(r);
    ScanFindsGap(r, 1, cand, k);
    ScanFindsGap(r, 1, 1, k);
  }

  lemma CloseKeepsRanges(r: seq<int>, c: nat)
    requires Ranges(r) && AllInt32(r) && c % 2 == 0 && 2 <= c < |r|
    ensures Ranges(Close(r, c)) && AllInt32(Close(r, c)) && |Close(r, c)| == |r| - 2
  {
    var s := Close(r, c);
    forall i, j | 0 <= i < j < |s|
      ensures s[i] <= s[j] && (i % 2 == 1 ==> s[i] < s[j])
    {
      var i', j' := if i < c - 1 then i else i + 2, if j < c - 1 then j else j + 2;
      assert s[i] == r[i'] && s[j] == r[j'];
    }
  }

  /** All passes: ranges are merged until at most MAXNUMRANGE remain. */
  function Shrink(r: seq<int>): (s: seq<int>)
    requires Ranges(r) && AllInt32(r)
    ensures Ranges(s) && AllInt32(s)
    ensures |s| == if |r| > 2 * MAXNUMRANGE then 2 * MAXNUMRANGE else |r|
    decreases |r|
  {
    if |r| <= 2 * MAXNUMRANGE then r else
      CandidateNarrowest(r, 1);
      CloseKeepsRanges(r, Candidate(r));
      Shrink(Close(r, Candidate(r)))
  }

  /** Every integer as a range of its own. */
  function Doubled(a: seq<int>): (r: seq<int>)
    ensures |r| == 2 * |a|
    ensures forall i | 0 <= i < |r| :: r[i] == a[i / 2]
  {
    seq(2 * |a|, i requires 0 <= i < 2 * |a| => a[i / 2])
  }

  lemma DoubledRanges(a: seq<int>)
    requires StrictlySorted(a) && AllInt32(a)
    ensures Ranges(Doubled(a)) && AllInt32(Doubled(a))
  {
    var r := Doubled(a);
    forall i, j | 0 <= i < j < |r|
      ensures r[i] <= r[j] && (i % 2 == 1 ==> r[i] < r[j])
    {
      if i / 2 < j / 2 { assert a[i / 2] < a[j / 2]; }
    }
  }

  // ----- The in-place loops -----

  /** Doubles the first `len` elements in place, from the last to the first. */
  method Expand(dr: array<int>, len: nat)
    requires dr.Length == 2 * len
    modifies dr
    ensures dr[..] == Doubled(old(dr[..len]))
  {
    var i := len;
    while i > 0
      invariant 0 <= i <= len
      invariant forall k | 0 <= k < i :: dr[k] == old(dr[k])
      invariant forall k | 2 * i <= k < 2 * len :: dr[k] == old(dr[k / 2])
    {
      i := i - 1;
      var x := dr[i];
      dr[2 * i + 1] := x;
      dr[2 * i] := x;
    }
  }

  /** One pass: finds the narrowest gap and moves the rest of the array over it. */
  method ClosePass(dr: array<int>, len: nat, cand0: nat) returns (cand: nat)
    requires len <= dr.Length && Ranges(dr[..len]) && AllInt32(dr[..len]) && len >= 8
    modifies dr
    ensures cand == Candidate(old(dr[..len])) && 2 <= cand < len
    ensures dr[..len - 2] == Close(old(dr[..len]), cand)
  {
    ghost var r := dr[..len];
    var min := INT_MAX;
    cand := cand0;
    var i := 2;
    while i < len
      invariant i >= 2 && i % 2 == 0 && dr[..len] == r
      invariant Scan(r, i / 2, min, cand) == Scan(r, 1, INT_MAX, cand0)
      decreases len - i
    {
      assert r[i] == dr[i] && r[i - 1] == dr[i - 1];
      if min > Sub32(dr[i], dr[i - 1]) {
        min := Sub32(dr[i], dr[i - 1]);
        cand := i;
      }
      i := i + 2;
    }
    CandidateNarrowest(r, cand0);
    Memmove(dr, len, cand);
  }

  /** Moves the elements after position `cand` down by two. */
  method Memmove(dr: array<int>, len: nat, cand: nat)
    requires 2 <= cand < len <= dr.Length
    modifies dr
    ensures dr[..len - 2] == Close(old(dr[..len]), cand)
  {
    forall k | cand - 1 <= k < len - 2 {
      dr[k] := dr[k + 2];
    }
  }

  /**
   * `g_int_compress` on an inner key: arrays of 200 integers and more become ranges, unless
   * there is no room for twice the array.
   */
  method Compress(r: seq<int>) returns (out: Option<seq<int>>)
    requires StrictlySorted(r) && AllInt32(r) && |r| <= MAX_ELEMS
    ensures Ranges(Doubled(r)) && AllInt32(Doubled(r))
    ensures out == if |r| < 2 * MAXNUMRANGE then Some(r)
                   else if 2 * |r| <= MAX_ELEMS then Some(Shrink(Doubled(r)))
                   else None
  {
    DoubledRanges(r);
    var len := |r|;
    if len < 2 * MAXNUMRANGE { return Some(r); }
    if !Allocated(ArrayBytes(2 * len)) { return None; }
    var dr := new int[2 * len];
    forall k | 0 <= k < len { dr[k] := r[k]; }
    assert dr[..len] == r;
    Expand(dr, len);
    len := len * 2;
    assert dr[..len] == dr[..];
    var cand := 1;
    while len > MAXNUMRANGE * 2
      invariant 2 * MAXNUMRANGE <= len <= dr.Length
      invariant Ranges(dr[..len]) && AllInt32(dr[..len])
      invariant Shrink(dr[..len]) == Shrink(Doubled(r))
    {
      ghost var before := dr[..len];
      cand := ClosePass(dr, len, cand);
      CandidateNarrowest(before, 1);
      CloseKeepsRanges(before, Candidate(before));
      len := len - 2;
    }
    out := Some(dr[..len]);
  }
}
