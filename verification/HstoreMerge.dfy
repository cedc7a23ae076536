/** The hstore operators that write a new value by merging: concatenation and deletion. */
module HstoreMerge {
  import opened Machine
  import opened Options
  import opened Bytea
  import opened HstorePairs
  import opened HstorePacked
  import opened HstoreBuild
  import opened HstoreOps

  /** `out` has written no more than what stands before pair `i` of `a` and pair `j` of `b`. */
  ghost predicate Within(out: Builder, a: HStore, i: nat, b: HStore, j: nat)
    requires i <= Count(a) && j <= Count(b)
    reads out
  {
    out.count <= i + j && out.used <= Standing(a, i, b, j)
  }

  /** Room for everything in `a` and `b`. */
  ghost predicate Roomy(out: Builder, a: HStore, b: HStore) {
    out.maxPairs == Count(a) + Count(b) && out.maxBytes == |a.buf| + |b.buf|
  }

  /** Copy pair `i` of `src`; with it, what is written grows from at most `room` to at most `after` bytes. */
  method Take(out: Builder, src: HStore, i: nat, ghost ps: seq<Pair>, ghost room: nat, ghost after: nat)
    requires out.Valid() && out.count < out.maxPairs
    requires WellFormed(src) && ps == Pairs(src) && i < Count(src) && Tidy(src.slots[i])
    requires out.used <= room && room + src.slots[i].val.end - Before(src.slots, i) <= after <= out.maxBytes
    modifies out, out.mem
    ensures out.Valid() && out.pairs == old(out.pairs) + [ps[i]] && out.count == old(out.count) + 1
    ensures out.used <= after
  {
    PairsAt(src, i);
    PairSpans(src, i);
    out.CopyItem(src, i);
  }

  // ----- Concatenation -----

  /** `d` has the sign of the comparison of the keys at the two places; an exhausted list is behind. */
  predicate Decides(ps: seq<Pair>, i: nat, qs: seq<Pair>, j: nat, d: int)
    requires i <= |ps| && j <= |qs|
  {
    if i == |ps| then j < |qs| && d > 0
    else if j == |qs| then d < 0
    else d == KeyCmp(ps[i].key, qs[j].key)
  }

  method Compare(a: HStore, i: nat, b: HStore, j: nat, ghost ps: seq<Pair>, ghost qs: seq<Pair>)
    returns (d: int)
    requires WellFormed(a) && WellFormed(b) && ps == Pairs(a) && qs == Pairs(b)
    requires i <= Count(a) && j <= Count(b) && (i < Count(a) || j < Count(b))
    ensures Decides(ps, i, qs, j, d)
  {
    if i >= Count(a) { return 1; }
    if j >= Count(b) { return -1; }
    PairsAt(a, i);
    PairsAt(b, j);
    d := KeyCmp(KeyAt(a, i), KeyAt(b, j));
  }

  /** The pair that comes next, and how far the two lists have come after it. */
  function Next(ps: seq<Pair>, i: nat, qs: seq<Pair>, j: nat, d: int): Pair
    requires i <= |ps| && j <= |qs| && Decides(ps, i, qs, j, d)
  {
    if d >= 0 then qs[j] else ps[i]
  }

  function Left(i: nat, d: int): nat { if d <= 0 then i + 1 else i }

  function Right(j: nat, d: int): nat { if d >= 0 then j + 1 else j }

  lemma {:induction false} MergeStep(ps: seq<Pair>, i: nat, qs: seq<Pair>, j: nat, d: int)
    requires i <= |ps| && j <= |qs| && Decides(ps, i, qs, j, d)
    ensures Left(i, d) <= |ps| && Right(j, d) <= |qs|
    ensures Merge(ps[i..], qs[j..]) == [Next(ps, i, qs, j, d)] + Merge(ps[Left(i, d)..], qs[Right(j, d)..])
  {
    if i < |ps| { assert ps[i..][1..] == ps[i + 1..] && ps[i..] == [ps[i]] + ps[i + 1..]; }
    if j < |qs| { assert qs[j..][1..] == qs[j + 1..] && qs[j..] == [qs[j]] + qs[j + 1..]; }
  }

  /** What stands before both places. */
  ghost function Standing(a: HStore, i: nat, b: HStore, j: nat): nat
    requires i <= Count(a) && j <= Count(b)
  {
    Before(a.slots, i) + Before(b.slots, j)
  }

  /** The pair that comes next fits before the places that come next. */
  lemma {:induction false} NextFits(a: HStore, i: nat, b: HStore, j: nat, d: int)
    requires WellFormed(a) && WellFormed(b) && i <= Count(a) && j <= Count(b)
    requires (d <= 0 ==> i < Count(a)) && (d >= 0 ==> j < Count(b))
    ensures Left(i, d) <= Count(a) && Right(j, d) <= Count(b)
    ensures Standing(a, Left(i, d), b, Right(j, d)) <= |a.buf| + |b.buf|
    ensures var src, k := if d >= 0 then b else a, if d >= 0 then j else i;
            Standing(a, i, b, j) + src.slots[k].val.end - Before(src.slots, k)
            <= Standing(a, Left(i, d), b, Right(j, d))
  {
    BeforeFits(a, Left(i, d));
    BeforeFits(b, Right(j, d));
    if d <= 0 { SlotAhead(a, i); }
    if d >= 0 { SlotAhead(b, j); }
  }

  /** One round of the loop: write the pair that comes next. */
  method MergeOnce(a: HStore, b: HStore, out: Builder, i: nat, j: nat, d: int, ghost ps: seq<Pair>, ghost qs: seq<Pair>)
    requires Canonical(a) && Canonical(b) && ps == Pairs(a) && qs == Pairs(b)
    requires i <= Count(a) && j <= Count(b) && Decides(ps, i, qs, j, d)
    requires out.Valid() && Roomy(out, a, b) && Within(out, a, i, b, j)
    modifies out, out.mem
    ensures Left(i, d) <= Count(a) && Right(j, d) <= Count(b)
    ensures out.Valid() && Within(out, a, Left(i, d), b, Right(j, d))
    ensures out.pairs == old(out.pairs) + [Next(ps, i, qs, j, d)]
  {
    NextFits(a, i, b, j, d);
    ghost var room, after := Standing(a, i, b, j), Standing(a, Left(i, d), b, Right(j, d));
    if d >= 0 {
      Take(out, b, j, qs, room, after);
    } else {
      Take(out, a, i, ps, room, after);
    }
  }

  /** The merge loop of `hstore_concat`. */
  method MergeLoop(a: HStore, b: HStore, out: Builder)
    requires Canonical(a) && Canonical(b) && out.Valid() && out.pairs == [] && out.used == 0 && Roomy(out, a, b)
    modifies out, out.mem
    ensures out.Valid() && out.pairs == Merge(Pairs(a), Pairs(b))
    ensures Within(out, a, Count(a), b, Count(b))
  {
    ghost var ps, qs := Pairs(a), Pairs(b);
    var i: nat, j: nat := 0, 0;
    assert ps[0..] == ps && qs[0..] == qs;
    while i < Count(a) || j < Count(b)
      invariant i <= Count(a) && j <= Count(b) && out.Valid() && Within(out, a, i, b, j)
      invariant Merge(ps, qs) == out.pairs + Merge(ps[i..], qs[j..])
      decreases Count(a) + Count(b) - i - j
    {
      var d := Compare(a, i, b, j, ps, qs);
      MergeStep(ps, i, qs, j, d);
      MoveOver(out.pairs, Next(ps, i, qs, j, d), Merge(ps[Left(i, d)..], qs[Right(j, d)..]));
      MergeOnce(a, b, out, i, j, d, ps, qs);
      i, j := Left(i, d), Right(j, d);
    }
  }

  lemma {:induction false} MoveOver(done: seq<Pair>, p: Pair, rest: seq<Pair>)
    ensures done + ([p] + rest) == (done + [p]) + rest
  {
  }

  lemma {:induction false} SlotAhead(h: HStore, i: nat)
    requires WellFormed(h) && i < Count(h)
    ensures Before(h.slots, i) <= Before(h.slots, i + 1)
  {
    assert WellPlaced(h.slots, |h.buf|, i);
  }

  /** A packed value that takes no more room than a canonical one is canonical. */
  lemma {:induction false} FinishedFits(ps: seq<Pair>, count: nat, bytes: nat)
    requires Sorted(ps) && |ps| <= count && |BufOf(ps, |ps|)| <= bytes && SizeFor(count, bytes) <= MAX_ALLOC
    ensures Canonical(Pack(ps)) && Pairs(Pack(ps)) == ps
  {
    PackThenRead(ps);
  }

  /** `hstore_concat`: the second value overrides the first. */
  method Concat(a: HStore, b: HStore) returns (r: Option<HStore>)
    requires Canonical(a) && Canonical(b)
    ensures r.None? <==> Size(a) + Size(b) > MAX_ALLOC
    ensures r.Some? ==> Canonical(r.value) && ToMap(Pairs(r.value)) == ToMap(Pairs(a)) + ToMap(Pairs(b))
  {
    if Size(a) + Size(b) > MAX_ALLOC { return None; }
    MergeIsOverride(Pairs(a), Pairs(b));
    if Count(a) == 0 { return Some(b); }
    if Count(b) == 0 { return Some(a); }
    var h := ConcatFull(a, b);
    return Some(h);
  }

  method ConcatFull(a: HStore, b: HStore) returns (h: HStore)
    requires Canonical(a) && Canonical(b) && Size(a) + Size(b) <= MAX_ALLOC && Sorted(Merge(Pairs(a), Pairs(b)))
    ensures Canonical(h) && Pairs(h) == Merge(Pairs(a), Pairs(b))
  {
    var out := new Builder(Count(a) + Count(b), |a.buf| + |b.buf|);
    MergeLoop(a, b, out);
    h := out.Finalize();
    FinishedFits(out.pairs, Count(a) + Count(b), |a.buf| + |b.buf|);
  }

  // ----- Deletion -----

  /** Is the pair at place `i` kept, once the two places have been compared? */
  predicate Keeps(ps: seq<Pair>, i: nat, qs: seq<Pair>, j: nat, whole: bool, d: int)
    requires i < |ps| && j <= |qs| && Decides(ps, i, qs, j, d)
  {
    d < 0 || (d == 0 && !Hit(ps[i], qs[j], whole))
  }

  lemma {:induction false} RemoveStep(ps: seq<Pair>, i: nat, qs: seq<Pair>, j: nat, whole: bool, d: int)
    requires i < |ps| && j <= |qs| && Decides(ps, i, qs, j, d)
    ensures Left(i, d) <= |ps| && Right(j, d) <= |qs|
    ensures var rest := Remove(ps[Left(i, d)..], qs[Right(j, d)..], whole);
            Remove(ps[i..], qs[j..], whole) == if Keeps(ps, i, qs, j, whole, d) then [ps[i]] + rest else rest
  {
    assert ps[i..][1..] == ps[i + 1..] && ps[i..] == [ps[i]] + ps[i + 1..];
    if j < |qs| { assert qs[j..][1..] == qs[j + 1..] && qs[j..] == [qs[j]] + qs[j + 1..]; }
  }

  /** What is written stands before pair `i`. */
  ghost predicate Behind(out: Builder, a: HStore, i: nat)
    requires i <= Count(a)
    reads out
  {
    out.count <= i && out.used <= Before(a.slots, i)
  }

  ghost predicate RoomFor(out: Builder, a: HStore) {
    out.maxPairs == Count(a) && out.maxBytes == |a.buf|
  }

  /** One round of the loops: write the pair at place `i` if it is kept. */
  method RemoveOnce(a: HStore, out: Builder, i: nat, keep: bool, d: int, ghost ps: seq<Pair>)
    requires Canonical(a) && ps == Pairs(a) && i < Count(a) && (keep ==> d <= 0)
    requires out.Valid() && RoomFor(out, a) && Behind(out, a, i)
    modifies out, out.mem
    ensures out.Valid() && Behind(out, a, Left(i, d))
    ensures out.pairs == if keep then old(out.pairs) + [ps[i]] else old(out.pairs)
  {
    BeforeFits(a, i + 1);
    SlotAhead(a, i);
    if keep { Take(out, a, i, ps, Before(a.slots, i), Before(a.slots, i + 1)); }
  }

  /** The loops of `hstore_delete_array` and `hstore_delete_hstore`. */
  method RemoveLoop(a: HStore, qs: seq<Pair>, whole: bool, out: Builder)
    requires Canonical(a) && out.Valid() && out.pairs == [] && out.used == 0 && RoomFor(out, a)
    modifies out, out.mem
    ensures out.Valid() && out.pairs == Remove(Pairs(a), qs, whole) && Behind(out, a, Count(a))
  {
    ghost var ps := Pairs(a);
    var i: nat, j: nat := 0, 0;
    assert ps[0..] == ps && qs[0..] == qs;
    while i < Count(a)
      invariant i <= Count(a) && j <= |qs| && out.Valid() && Behind(out, a, i)
      invariant Remove(ps, qs, whole) == out.pairs + Remove(ps[i..], qs[j..], whole)
      decreases Count(a) + |qs| - i - j
    {
      var p := ReadPair(a, i, ps);
      var d := if j >= |qs| then -1 else KeyCmp(p.key, qs[j].key);
      var keep := d < 0 || (d == 0 && !Hit(p, qs[j], whole));
      RemoveStep(ps, i, qs, j, whole, d);
      MoveOver(out.pairs, ps[i], Remove(ps[Left(i, d)..], qs[Right(j, d)..], whole));
      RemoveOnce(a, out, i, keep, d, ps);
      i, j := Left(i, d), Right(j, d);
    }
  }

  method RemovePairs(a: HStore, b: seq<Pair>, whole: bool) returns (h: HStore)
    requires Canonical(a) && Sorted(Remove(Pairs(a), b, whole))
    ensures Canonical(h) && Pairs(h) == Remove(Pairs(a), b, whole)
  {
    if b == [] {
      RemoveNothing(Pairs(a), whole);
      return a;
    }
    var out := new Builder(Count(a), |a.buf|);
    RemoveLoop(a, b, whole, out);
    h := out.Finalize();
    FinishedFits(out.pairs, Count(a), |a.buf|);
  }

  lemma {:induction false} RemoveNothing(a: seq<Pair>, whole: bool)
    ensures Remove(a, [], whole) == a
  {
  }

  /** `hstore_delete_array`: the map without the keys given. */
  method DeleteArray(h: HStore, keys: seq<Option<bytes>>) returns (r: Option<HStore>)
    requires Canonical(h)
    ensures r.None? <==> |keys| > MAX_PAIRS
    ensures r.Some? ==> Canonical(r.value) && ToMap(Pairs(r.value)) == ToMap(Pairs(h)) - KeysIn(keys)
  {
    var kp := ArrayToPairs(keys);
    if kp.None? { return None; }
    RemoveIsMinus(Pairs(h), kp.value);
    var out := RemovePairs(h, kp.value, false);
    return Some(out);
  }

  /** `hstore_delete_hstore`: the map without the pairs that are also in `b`. */
  method DeleteHstore(a: HStore, b: HStore) returns (h: HStore)
    requires Canonical(a) && Canonical(b)
    ensures Canonical(h) && ToMap(Pairs(h)) == Unmatched(ToMap(Pairs(a)), ToMap(Pairs(b)))
  {
    RemoveIsUnmatched(Pairs(a), Pairs(b));
    var ps := ReadAll(b);
    h := RemovePairs(a, ps, true);
  }

  method ReadAll(h: HStore) returns (ps: seq<Pair>)
    requires WellFormed(h)
    ensures ps == Pairs(h)
  {
    ps := [];
    for i := 0 to Count(h)
      invariant ps == FirstPairs(h, i)
    {
      PairsAt(h, i);
      ps := ps + [PairAt(h, i)];
    }
  }
}
