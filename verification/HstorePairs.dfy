/**
 * An hstore as the list of its pairs, sorted by key length and then by bytes, and the
 * finite map that such a list stands for.
 */
module HstorePairs {
  import opened Options
  import opened Bytea

  /** A value that is `None` is the SQL null. */
  datatype Pair = Pair(key: bytes, val: Option<bytes>)

  /** Shorter keys come first; keys of one length are ordered by memcmp. */
  function KeyCmp(a: bytes, b: bytes): int { if |a| == |b| then Cmp(a, b) else |a| - |b| }

  predicate KeyLess(a: bytes, b: bytes) { KeyCmp(a, b) < 0 }

  lemma KeyOrder(a: bytes, b: bytes)
    ensures KeyCmp(a, b) == 0 <==> a == b
    ensures KeyCmp(a, b) > 0 <==> KeyLess(b, a)
  {
    CmpZero(a, b);
    LeqTotal(a, b);
  }

  lemma KeyLessTransitive(a: bytes, b: bytes, c: bytes)
    requires KeyLess(a, b) && KeyLess(b, c)
    ensures KeyLess(a, c)
  {
    if |a| == |b| == |c| { LeqTransitive(a, b, c); }
  }

  // ----- Sorted lists -----

  predicate StepUp(ps: seq<Pair>, i: nat)
    requires 0 < i < |ps|
  {
    KeyLess(ps[i - 1].key, ps[i].key)
  }

  /** Keys strictly increase. */
  ghost predicate Sorted(ps: seq<Pair>) { forall i: nat | 0 < i < |ps| :: StepUp(ps, i) }

  lemma {:induction false} SortedBetween(ps: seq<Pair>, i: nat, j: nat)
    requires Sorted(ps) && i < j < |ps|
    ensures KeyLess(ps[i].key, ps[j].key)
    decreases j - i
  {
    assert StepUp(ps, j);
    if i < j - 1 {
      SortedBetween(ps, i, j - 1);
      KeyLessTransitive(ps[i].key, ps[j - 1].key, ps[j].key);
    }
  }

  lemma {:induction false} SortedTail(ps: seq<Pair>)
    requires Sorted(ps) && ps != []
    ensures Sorted(ps[1..]) && AllAbove(ps[0].key, ps[1..])
  {
    forall i: nat | 0 < i < |ps| - 1 ensures StepUp(ps[1..], i) { assert StepUp(ps, i + 1); }
    if |ps| > 1 { assert StepUp(ps, 1); }
  }

  /** `k` is below the first key, and so below all. */
  predicate AllAbove(k: bytes, ps: seq<Pair>) { ps == [] || KeyLess(k, ps[0].key) }

  lemma {:induction false} SortedCons(p: Pair, ps: seq<Pair>)
    requires Sorted(ps) && AllAbove(p.key, ps)
    ensures Sorted([p] + ps)
  {
    forall i: nat | 0 < i < |ps| + 1 ensures StepUp([p] + ps, i) {
      if i > 1 { assert StepUp(ps, i - 1); }
    }
  }

  lemma {:induction false} SortedAppend(ps: seq<Pair>, p: Pair)
    requires Sorted(ps) && (ps == [] || KeyLess(ps[|ps| - 1].key, p.key))
    ensures Sorted(ps + [p])
  {
    forall i: nat | 0 < i < |ps| + 1 ensures StepUp(ps + [p], i) {
      if i < |ps| { assert StepUp(ps, i); }
    }
  }

  // ----- The map -----

  /** Where the key is in the list, counting from place `i`, or -1. */
  function Position(ps: seq<Pair>, k: bytes, i: nat): (r: int)
    requires i <= |ps|
    ensures r == -1 || (i <= r < |ps| && ps[r].key == k)
    decreases |ps| - i
  {
    if i == |ps| then -1 else if ps[i].key == k then i else Position(ps, k, i + 1)
  }

  function Lookup(ps: seq<Pair>, k: bytes): Option<Option<bytes>> {
    var i := Position(ps, k, 0);
    if i < 0 then None else Some(ps[i].val)
  }

  ghost function Keys(ps: seq<Pair>): set<bytes> { set p | p in ps :: p.key }

  /** The value of a key; null if there is none. */
  function ValueOf(ps: seq<Pair>, k: bytes): Option<bytes> {
    if Lookup(ps, k).Some? then Lookup(ps, k).value else None
  }

  ghost function ToMap(ps: seq<Pair>): map<bytes, Option<bytes>> { map k | k in Keys(ps) :: ValueOf(ps, k) }

  lemma {:induction false} PositionFinds(ps: seq<Pair>, i: nat, from: nat)
    requires from <= i < |ps|
    ensures from <= Position(ps, ps[i].key, from) <= i
    decreases i - from
  {
    if from < i && ps[from].key != ps[i].key { PositionFinds(ps, i, from + 1); }
  }

  lemma {:induction false} LookupKeys(ps: seq<Pair>, k: bytes)
    ensures Lookup(ps, k).Some? <==> k in Keys(ps)
    ensures Lookup(ps, k).Some? ==> Pair(k, Lookup(ps, k).value) in ps
  {
    var i := Position(ps, k, 0);
    if i >= 0 { assert ps[i] in ps; }
    if k in Keys(ps) {
      var p :| p in ps && p.key == k;
      var j :| 0 <= j < |ps| && ps[j] == p;
      PositionFinds(ps, j, 0);
    }
  }

  lemma {:induction false} LookupIsMap(ps: seq<Pair>, k: bytes)
    ensures Lookup(ps, k) == if k in ToMap(ps) then Some(ToMap(ps)[k]) else None
  {
    LookupKeys(ps, k);
  }

  /** Keys of a sorted list come only once. */
  lemma {:induction false} PositionAt(ps: seq<Pair>, i: nat)
    requires Sorted(ps) && i < |ps|
    ensures Position(ps, ps[i].key, 0) == i && Lookup(ps, ps[i].key) == Some(ps[i].val)
  {
    PositionFinds(ps, i, 0);
    var j := Position(ps, ps[i].key, 0);
    if j < i {
      SortedBetween(ps, j, i);
      KeyOrder(ps[j].key, ps[i].key);
    }
  }

  lemma {:induction false} LookupIn(ps: seq<Pair>, p: Pair)
    requires Sorted(ps) && p in ps
    ensures Lookup(ps, p.key) == Some(p.val)
  {
    var i :| 0 <= i < |ps| && ps[i] == p;
    PositionAt(ps, i);
  }

  lemma {:induction false} PositionShift(p: Pair, ps: seq<Pair>, k: bytes, i: nat)
    requires i <= |ps|
    ensures Position([p] + ps, k, i + 1) == if Position(ps, k, i) < 0 then -1 else Position(ps, k, i) + 1
    decreases |ps| - i
  {
    if i < |ps| { PositionShift(p, ps, k, i + 1); }
  }

  lemma {:induction false} LookupCons(p: Pair, ps: seq<Pair>, k: bytes)
    ensures Lookup([p] + ps, k) == if p.key == k then Some(p.val) else Lookup(ps, k)
  {
    PositionShift(p, ps, k, 0);
  }

  lemma {:induction false} LookupTail(ps: seq<Pair>, k: bytes)
    requires ps != []
    ensures Lookup(ps, k) == if ps[0].key == k then Some(ps[0].val) else Lookup(ps[1..], k)
  {
    assert ps == [ps[0]] + ps[1..];
    LookupCons(ps[0], ps[1..], k);
  }

  /** A key below all keys of a sorted list is not in it. */
  lemma {:induction false} LookupBelow(ps: seq<Pair>, k: bytes)
    requires Sorted(ps) && AllAbove(k, ps)
    ensures Lookup(ps, k) == None
  {
    var i := Position(ps, k, 0);
    if i > 0 {
      SortedBetween(ps, 0, i);
      KeyOrder(ps[0].key, k);
    } else if i == 0 {
      KeyOrder(k, k);
    }
  }

  /** Sorted lists with the same lookups are equal. */
  lemma {:induction false} LookupDetermines(a: seq<Pair>, b: seq<Pair>)
    requires Sorted(a) && Sorted(b) && forall k :: Lookup(a, k) == Lookup(b, k)
    ensures a == b
  {
    if a != [] && b != [] {
      SameFirst(a, b);
      SortedTail(a);
      SortedTail(b);
      forall k ensures Lookup(a[1..], k) == Lookup(b[1..], k) {
        LookupTail(a, k);
        LookupTail(b, k);
        LookupBelow(a[1..], a[0].key);
        LookupBelow(b[1..], b[0].key);
        assert Lookup(a, k) == Lookup(b, k);
      }
      LookupDetermines(a[1..], b[1..]);
      assert a == [a[0]] + a[1..] && b == [b[0]] + b[1..];
    } else if a != [] {
      PositionAt(a, 0);
    } else if b != [] {
      PositionAt(b, 0);
    }
  }

  lemma {:induction false} SameFirst(a: seq<Pair>, b: seq<Pair>)
    requires Sorted(a) && Sorted(b) && a != [] && b != [] && forall k :: Lookup(a, k) == Lookup(b, k)
    ensures a[0] == b[0]
  {
    var ka, kb := a[0].key, b[0].key;
    PositionAt(a, 0);
    PositionAt(b, 0);
    assert Lookup(a, ka) == Lookup(b, ka) && Lookup(a, kb) == Lookup(b, kb);
    KeyOrder(ka, kb);
    if KeyLess(ka, kb) { LookupBelow(b, ka); }
    if KeyLess(kb, ka) { LookupBelow(a, kb); }
  }

  // ----- Merges -----

  /** `hstore_concat`: keys of both, values of the second where both have one. */
  function Merge(a: seq<Pair>, b: seq<Pair>): seq<Pair>
    decreases |a| + |b|
  {
    if a == [] then b
    else if b == [] then a
    else
      var d := KeyCmp(a[0].key, b[0].key);
      if d > 0 then [b[0]] + Merge(a, b[1..])
      else if d == 0 then [b[0]] + Merge(a[1..], b[1..])
      else [a[0]] + Merge(a[1..], b)
  }

  lemma {:induction false} MergeSorted(a: seq<Pair>, b: seq<Pair>, k: bytes)
    requires Sorted(a) && Sorted(b)
    ensures Sorted(Merge(a, b))
    ensures AllAbove(k, a) && AllAbove(k, b) ==> AllAbove(k, Merge(a, b))
    decreases |a| + |b|
  {
    if a != [] && b != [] {
      var d := KeyCmp(a[0].key, b[0].key);
      KeyOrder(a[0].key, b[0].key);
      SortedTail(a);
      SortedTail(b);
      if d > 0 {
        MergeSorted(a, b[1..], b[0].key);
        SortedCons(b[0], Merge(a, b[1..]));
      } else if d == 0 {
        MergeSorted(a[1..], b[1..], b[0].key);
        SortedCons(b[0], Merge(a[1..], b[1..]));
      } else {
        MergeSorted(a[1..], b, a[0].key);
        SortedCons(a[0], Merge(a[1..], b));
      }
    }
  }

  /** Merging is map override by the second argument. */
  lemma {:induction false} MergeLookup(a: seq<Pair>, b: seq<Pair>, k: bytes)
    requires Sorted(a) && Sorted(b)
    ensures Lookup(Merge(a, b), k) == if Lookup(b, k).Some? then Lookup(b, k) else Lookup(a, k)
    decreases |a| + |b|
  {
    if a != [] && b != [] {
      var d := KeyCmp(a[0].key, b[0].key);
      KeyOrder(a[0].key, b[0].key);
      SortedTail(a);
      SortedTail(b);
      LookupTail(a, k);
      LookupTail(b, k);
      if d > 0 {
        MergeLookup(a, b[1..], k);
        LookupCons(b[0], Merge(a, b[1..]), k);
      } else if d == 0 {
        MergeLookup(a[1..], b[1..], k);
        LookupCons(b[0], Merge(a[1..], b[1..]), k);
      } else {
        MergeLookup(a[1..], b, k);
        LookupCons(a[0], Merge(a[1..], b), k);
        LookupBelow(b, a[0].key);
      }
    }
  }

  lemma {:induction false} MergeIsOverride(a: seq<Pair>, b: seq<Pair>)
    requires Sorted(a) && Sorted(b)
    ensures Sorted(Merge(a, b)) && ToMap(Merge(a, b)) == ToMap(a) + ToMap(b)
  {
    MergeSorted(a, b, []);
    forall k ensures k in ToMap(Merge(a, b)) <==> k in ToMap(a) + ToMap(b)
             ensures k in ToMap(Merge(a, b)) ==> ToMap(Merge(a, b))[k] == (ToMap(a) + ToMap(b))[k]
    {
      MergeLookup(a, b, k);
      LookupIsMap(a, k);
      LookupIsMap(b, k);
      LookupIsMap(Merge(a, b), k);
    }
  }

  /** Does a pair to be removed match? With whole pairs the values must be equal too. */
  predicate Hit(p: Pair, q: Pair, wholePair: bool) { !wholePair || p.val == q.val }

  /** `hstore_delete_array` (keys only) and `hstore_delete_hstore` (whole pairs): what remains. */
  function Remove(a: seq<Pair>, b: seq<Pair>, wholePair: bool): seq<Pair>
    decreases |a| + |b|
  {
    if a == [] then []
    else if b == [] then a
    else
      var d := KeyCmp(a[0].key, b[0].key);
      if d > 0 then Remove(a, b[1..], wholePair)
      else if d == 0 && Hit(a[0], b[0], wholePair) then Remove(a[1..], b[1..], wholePair)
      else if d == 0 then [a[0]] + Remove(a[1..], b[1..], wholePair)
      else [a[0]] + Remove(a[1..], b, wholePair)
  }

  lemma {:induction false} AboveTail(k: bytes, a: seq<Pair>)
    requires Sorted(a) && a != [] && AllAbove(k, a)
    ensures AllAbove(k, a[1..])
  {
    if |a| > 1 {
      SortedBetween(a, 0, 1);
      KeyLessTransitive(k, a[0].key, a[1].key);
    }
  }

  lemma {:induction false} RemoveSorted(a: seq<Pair>, b: seq<Pair>, wholePair: bool, k: bytes)
    requires Sorted(a) && Sorted(b)
    ensures Sorted(Remove(a, b, wholePair))
    ensures AllAbove(k, a) ==> AllAbove(k, Remove(a, b, wholePair))
    decreases |a| + |b|
  {
    if a != [] && b != [] {
      var d := KeyCmp(a[0].key, b[0].key);
      SortedTail(a);
      SortedTail(b);
      if AllAbove(k, a) { AboveTail(k, a); }
      if d > 0 {
        RemoveSorted(a, b[1..], wholePair, k);
      } else if d == 0 {
        RemoveSorted(a[1..], b[1..], wholePair, a[0].key);
        RemoveSorted(a[1..], b[1..], wholePair, k);
        SortedCons(a[0], Remove(a[1..], b[1..], wholePair));
      } else {
        RemoveSorted(a[1..], b, wholePair, a[0].key);
        SortedCons(a[0], Remove(a[1..], b, wholePair));
      }
    }
  }

  /** A key stays exactly if it is not hit. */
  lemma {:induction false} RemoveLookup(a: seq<Pair>, b: seq<Pair>, wholePair: bool, k: bytes)
    requires Sorted(a) && Sorted(b)
    ensures Lookup(Remove(a, b, wholePair), k)
            == if Lookup(b, k).Some? && (!wholePair || Lookup(a, k) == Lookup(b, k)) then None else Lookup(a, k)
    decreases |a| + |b|
  {
    if a != [] && b != [] {
      var d := KeyCmp(a[0].key, b[0].key);
      KeyOrder(a[0].key, b[0].key);
      SortedTail(a);
      SortedTail(b);
      LookupTail(a, k);
      LookupTail(b, k);
      if d > 0 {
        RemoveLookup(a, b[1..], wholePair, k);
        LookupBelow(a, b[0].key);
      } else if d == 0 {
        RemoveLookup(a[1..], b[1..], wholePair, k);
        LookupCons(a[0], Remove(a[1..], b[1..], wholePair), k);
        LookupBelow(a[1..], a[0].key);
        LookupBelow(b[1..], b[0].key);
      } else {
        RemoveLookup(a[1..], b, wholePair, k);
        LookupCons(a[0], Remove(a[1..], b, wholePair), k);
        LookupBelow(b, a[0].key);
      }
    }
  }

  /** Removing keys is map difference. */
  lemma {:induction false} RemoveIsMinus(a: seq<Pair>, b: seq<Pair>)
    requires Sorted(a) && Sorted(b)
    ensures Sorted(Remove(a, b, false)) && ToMap(Remove(a, b, false)) == ToMap(a) - Keys(b)
  {
    var r := Remove(a, b, false);
    RemoveSorted(a, b, false, []);
    forall k ensures k in ToMap(r) <==> k in ToMap(a) - Keys(b)
             ensures k in ToMap(r) ==> ToMap(r)[k] == (ToMap(a) - Keys(b))[k]
    {
      RemoveLookup(a, b, false, k);
      LookupIsMap(a, k);
      LookupIsMap(r, k);
      LookupKeys(b, k);
    }
  }

  /** The entries of `m` that are not also in `n` with the same value. */
  ghost function Unmatched(m: map<bytes, Option<bytes>>, n: map<bytes, Option<bytes>>): map<bytes, Option<bytes>> {
    map k | k in m && !(k in n && n[k] == m[k]) :: m[k]
  }

  /** Removing pairs takes away only what is equal in key and value. */
  lemma {:induction false} RemoveIsUnmatched(a: seq<Pair>, b: seq<Pair>)
    requires Sorted(a) && Sorted(b)
    ensures Sorted(Remove(a, b, true)) && ToMap(Remove(a, b, true)) == Unmatched(ToMap(a), ToMap(b))
  {
    var r := Remove(a, b, true);
    RemoveSorted(a, b, true, []);
    forall k ensures k in ToMap(r) <==> k in Unmatched(ToMap(a), ToMap(b))
             ensures k in ToMap(r) ==> ToMap(r)[k] == ToMap(a)[k]
    {
      RemoveLookup(a, b, true, k);
      LookupIsMap(a, k);
      LookupIsMap(b, k);
      LookupIsMap(r, k);
    }
  }
}
