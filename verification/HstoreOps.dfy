/**
 * Operators on hstores: search with a carried lower bound, membership, containment and
 * slices.
 */
module HstoreOps {
  import opened Machine
  import opened Options
  import opened Bytea
  import opened HstorePairs
  import opened HstorePacked
  import opened HstoreBuild

  // ----- Search -----

  /** How key number `i` compares with `k`. */
  predicate LessAt(ps: seq<Pair>, i: nat, k: bytes)
    requires i < |ps|
  {
    KeyLess(ps[i].key, k)
  }

  predicate MoreAt(ps: seq<Pair>, i: nat, k: bytes)
    requires i < |ps|
  {
    KeyLess(k, ps[i].key)
  }

  /** The keys before place `n` are below `k`, or at most `k`. */
  ghost predicate Below(ps: seq<Pair>, n: nat, k: bytes) {
    n <= |ps| && forall i: nat | i < n :: LessAt(ps, i, k)
  }

  ghost predicate UpTo(ps: seq<Pair>, n: nat, k: bytes) {
    n <= |ps| && forall i: nat | i < n :: !MoreAt(ps, i, k)
  }

  /** All keys from place `n` on are above `k`. */
  ghost predicate Above(ps: seq<Pair>, n: nat, k: bytes) {
    n <= |ps| && forall i: nat | n <= i < |ps| :: MoreAt(ps, i, k)
  }

  /** What is at most one key is below the next. */
  lemma {:induction false} UpToBelow(ps: seq<Pair>, n: nat, k: bytes, next: bytes)
    requires UpTo(ps, n, k) && KeyLess(k, next)
    ensures Below(ps, n, next)
  {
    forall i: nat | i < n ensures LessAt(ps, i, next) {
      assert !MoreAt(ps, i, k);
      NotMoreThenLess(ps[i].key, k, next);
    }
  }

  lemma {:induction false} NotMoreThenLess(a: bytes, b: bytes, c: bytes)
    requires !KeyLess(b, a) && KeyLess(b, c)
    ensures KeyLess(a, c)
  {
    KeyOrder(b, a);
    KeyOrder(a, b);
    if a != b { KeyLessTransitive(a, b, c); }
  }

  lemma {:induction false} RaiseLow(ps: seq<Pair>, mid: nat, k: bytes)
    requires Sorted(ps) && mid < |ps| && KeyLess(ps[mid].key, k)
    ensures Below(ps, mid + 1, k)
  {
    forall i: nat | i < mid + 1 ensures LessAt(ps, i, k) {
      if i < mid {
        SortedBetween(ps, i, mid);
        KeyLessTransitive(ps[i].key, ps[mid].key, k);
      }
    }
  }

  lemma {:induction false} LowerHigh(ps: seq<Pair>, mid: nat, k: bytes)
    requires Sorted(ps) && mid < |ps| && KeyLess(k, ps[mid].key)
    ensures Above(ps, mid, k)
  {
    forall i: nat | mid <= i < |ps| ensures MoreAt(ps, i, k) {
      if mid < i {
        SortedBetween(ps, mid, i);
        KeyLessTransitive(k, ps[mid].key, ps[i].key);
      }
    }
  }

  lemma {:induction false} Hits(ps: seq<Pair>, mid: nat)
    requires Sorted(ps) && mid < |ps|
    ensures UpTo(ps, mid + 1, ps[mid].key) && Position(ps, ps[mid].key, 0) == mid
  {
    forall i: nat | i < mid + 1 ensures !MoreAt(ps, i, ps[mid].key) {
      if i < mid { SortedBetween(ps, i, mid); }
      KeyOrder(ps[i].key, ps[mid].key);
      KeyOrder(ps[mid].key, ps[i].key);
    }
    PositionAt(ps, mid);
  }

  lemma {:induction false} Misses(ps: seq<Pair>, n: nat, k: bytes)
    requires Below(ps, n, k) && Above(ps, n, k)
    ensures UpTo(ps, n, k) && Position(ps, k, 0) == -1
  {
    forall i: nat | i < |ps| ensures ps[i].key != k && (i < n ==> !MoreAt(ps, i, k)) {
      assert if i < n then LessAt(ps, i, k) else MoreAt(ps, i, k);
      KeyOrder(ps[i].key, k);
      KeyOrder(k, ps[i].key);
    }
  }

  /**
   * `hstoreFindKey`: binary search from the lower bound left by the search before. As long as
   * only smaller keys lie below that bound, the index is that of a search of the whole list.
   */
  method FindKey(h: HStore, low: nat, key: bytes) returns (idx: int, next: nat)
    requires InOrder(h) && Below(Pairs(h), low, key)
    ensures idx == Position(Pairs(h), key, 0)
    ensures low <= next && UpTo(Pairs(h), next, key)
    ensures if idx >= 0 then low <= idx && next == idx + 1 else Above(Pairs(h), next, key)
  {
    ghost var ps := Pairs(h);
    var stopLow, stopHigh := low, Count(h);
    while stopLow < stopHigh
      invariant low <= stopLow <= stopHigh <= |ps|
      invariant Below(ps, stopLow, key) && Above(ps, stopHigh, key)
    {
      var mid := stopLow + (stopHigh - stopLow) / 2;
      PairsAt(h, mid);
      var difference := KeyCmp(KeyAt(h, mid), key);
      KeyOrder(ps[mid].key, key);
      if difference == 0 {
        Hits(ps, mid);
        return mid, mid + 1;
      } else if difference < 0 {
        RaiseLow(ps, mid, key);
        stopLow := mid + 1;
      } else {
        LowerHigh(ps, mid, key);
        stopHigh := mid;
      }
    }
    Misses(ps, stopLow, key);
    return -1, stopLow;
  }

  // ----- Key arrays -----

  /** The most pairs (of 40 bytes) that can be allocated. */
  const MAX_PAIRS := MAX_ALLOC / 40

  ghost function KeysIn(keys: seq<Option<bytes>>): set<bytes> { set k | k in keys && k.Some? :: k.value }

  method CollectKeys(keys: seq<Option<bytes>>, a: array<Pair>) returns (j: nat)
    requires a.Length == |keys|
    modifies a
    ensures j <= |keys| && Keys(a[..j]) == KeysIn(keys)
    ensures forall p | p in a[..j] :: p.val == None
  {
    j := 0;
    for i := 0 to |keys|
      invariant j <= i && Keys(a[..j]) == KeysIn(keys[..i])
      invariant forall p | p in a[..j] :: p.val == None
    {
      KeysInAppend(keys[..i], keys[i]);
      assert keys[..i + 1] == keys[..i] + [keys[i]];
      if keys[i].Some? {
        ghost var was := a[..j];
        a[j] := Pair(keys[i].value, None);
        KeysAppend(was, a[j]);
        j := j + 1;
        assert a[..j] == was + [a[j - 1]];
      }
    }
    assert keys[..|keys|] == keys;
  }

  lemma {:induction false} KeysInAppend(keys: seq<Option<bytes>>, k: Option<bytes>)
    ensures KeysIn(keys + [k]) == KeysIn(keys) + if k.Some? then {k.value} else {}
  {
    var all := keys + [k];
    forall x | x in KeysIn(keys) ensures x in KeysIn(all) {
      assert Some(x) in keys;
      assert Some(x) in all;
    }
    if k.Some? { assert k in all; }
  }

  lemma {:induction false} KeysAppend(ps: seq<Pair>, p: Pair)
    ensures Keys(ps + [p]) == Keys(ps) + {p.key}
  {
    var all := ps + [p];
    assert p in all;
    forall x | x in Keys(ps) ensures x in Keys(all) {
      var q :| q in ps && q.key == x;
      assert q in all;
    }
  }

  /** `hstoreArrayToPairs`: the keys that are not null, sorted and without repeats. */
  method ArrayToPairs(keys: seq<Option<bytes>>) returns (r: Option<seq<Pair>>)
    ensures r.None? <==> |keys| > MAX_PAIRS
    ensures r.Some? ==> Sorted(r.value) && Keys(r.value) == KeysIn(keys)
  {
    if |keys| > MAX_PAIRS { return None; }
    var a := new Pair[|keys|](_ => Pair([], None));
    var j := CollectKeys(keys, a);
    var n, _ := UniquePairs(a, j);
    return Some(a[..n]);
  }

  // ----- Searching for a sorted list of keys -----

  /** The lower bound `low` is right for key number `i`. */
  ghost predicate Carried(ps: seq<Pair>, kp: seq<Pair>, i: nat, low: nat) {
    i <= |kp| && (i == 0 ==> low == 0) && (i > 0 ==> UpTo(ps, low, kp[i - 1].key))
  }

  /** Search for key number `i` with the bound carried from the key before it. */
  method FindNext(h: HStore, ghost ps: seq<Pair>, ghost kp: seq<Pair>, ghost i: nat, key: bytes, low: nat)
    returns (idx: int, next: nat)
    requires InOrder(h) && ps == Pairs(h)
    requires Sorted(kp) && i < |kp| && kp[i].key == key && Carried(ps, kp, i, low)
    ensures Carried(ps, kp, i + 1, next)
    ensures -1 <= idx < |ps| && Lookup(ps, key) == (if idx < 0 then None else Some(ps[idx].val))
    ensures low <= next && (idx >= 0 ==> low <= idx && next == idx + 1 && ps[idx].key == key)
  {
    CarriedBelow(ps, kp, i, low);
    idx, next := FindKey(h, low, key);
  }

  lemma {:induction false} CarriedBelow(ps: seq<Pair>, kp: seq<Pair>, i: nat, low: nat)
    requires Sorted(kp) && i < |kp| && Carried(ps, kp, i, low)
    ensures Below(ps, low, kp[i].key)
  {
    if i > 0 {
      SortedBetween(kp, i - 1, i);
      UpToBelow(ps, low, kp[i - 1].key, kp[i].key);
    }
  }

  lemma {:induction false} KeyAmong(kp: seq<Pair>, i: nat)
    requires i < |kp|
    ensures kp[i].key in Keys(kp)
  {
    assert kp[i] in kp;
  }

  /** Do any, or all, of the keys have a value? */
  ghost predicate AnyFound(ps: seq<Pair>, kp: seq<Pair>) {
    exists j | 0 <= j < |kp| :: Lookup(ps, kp[j].key).Some?
  }

  ghost predicate AllFound(ps: seq<Pair>, kp: seq<Pair>) {
    forall j | 0 <= j < |kp| :: Lookup(ps, kp[j].key).Some?
  }

  lemma {:induction false} AnyFoundIs(ps: seq<Pair>, kp: seq<Pair>)
    ensures AnyFound(ps, kp) <==> Keys(kp) * ToMap(ps).Keys != {}
  {
    if AnyFound(ps, kp) {
      var j :| 0 <= j < |kp| && Lookup(ps, kp[j].key).Some?;
      LookupIsMap(ps, kp[j].key);
      KeyAmong(kp, j);
      assert kp[j].key in Keys(kp) * ToMap(ps).Keys;
    }
    if Keys(kp) * ToMap(ps).Keys != {} {
      var k :| k in Keys(kp) * ToMap(ps).Keys;
      var p :| p in kp && p.key == k;
      LookupIsMap(ps, k);
    }
  }

  lemma {:induction false} AllFoundIs(ps: seq<Pair>, kp: seq<Pair>)
    ensures AllFound(ps, kp) <==> Keys(kp) <= ToMap(ps).Keys
  {
    if AllFound(ps, kp) {
      forall k | k in Keys(kp) ensures k in ToMap(ps) {
        var p :| p in kp && p.key == k;
        LookupIsMap(ps, k);
      }
    }
    forall j | 0 <= j < |kp| && Keys(kp) <= ToMap(ps).Keys ensures Lookup(ps, kp[j].key).Some? {
      KeyAmong(kp, j);
      LookupIsMap(ps, kp[j].key);
    }
  }

  method AnyOf(h: HStore, kp: seq<Pair>) returns (res: bool)
    requires InOrder(h) && Sorted(kp)
    ensures res <==> AnyFound(Pairs(h), kp)
  {
    ghost var ps := Pairs(h);
    var low := 0;
    for i := 0 to |kp|
      invariant Carried(ps, kp, i, low)
      invariant forall j | 0 <= j < i :: Lookup(ps, kp[j].key).None?
    {
      var idx, next := FindNext(h, ps, kp, i, kp[i].key, low);
      low := next;
      if idx >= 0 { return true; }
    }
    return false;
  }

  method AllOf(h: HStore, kp: seq<Pair>) returns (res: bool)
    requires InOrder(h) && Sorted(kp)
    ensures res <==> AllFound(Pairs(h), kp)
  {
    ghost var ps := Pairs(h);
    var low := 0;
    for i := 0 to |kp|
      invariant Carried(ps, kp, i, low)
      invariant forall j | 0 <= j < i :: Lookup(ps, kp[j].key).Some?
    {
      var idx, next := FindNext(h, ps, kp, i, kp[i].key, low);
      low := next;
      if idx < 0 { return false; }
    }
    return true;
  }

  /** `hstore_exists_any`. */
  method ExistsAny(h: HStore, keys: seq<Option<bytes>>) returns (r: Option<bool>)
    requires InOrder(h)
    ensures r.None? <==> |keys| > MAX_PAIRS
    ensures r.Some? ==> (r.value <==> KeysIn(keys) * ToMap(Pairs(h)).Keys != {})
  {
    var kp := ArrayToPairs(keys);
    if kp.None? { return None; }
    AnyFoundIs(Pairs(h), kp.value);
    var res := AnyOf(h, kp.value);
    return Some(res);
  }

  /** `hstore_exists_all`. */
  method ExistsAll(h: HStore, keys: seq<Option<bytes>>) returns (r: Option<bool>)
    requires InOrder(h)
    ensures r.None? <==> |keys| > MAX_PAIRS
    ensures r.Some? ==> (r.value <==> KeysIn(keys) <= ToMap(Pairs(h)).Keys)
  {
    var kp := ArrayToPairs(keys);
    if kp.None? { return None; }
    AllFoundIs(Pairs(h), kp.value);
    var res := AllOf(h, kp.value);
    return Some(res);
  }

  /** The first map is part of the second. */
  ghost predicate SubMap(a: map<bytes, Option<bytes>>, b: map<bytes, Option<bytes>>) {
    forall k | k in a :: k in b && b[k] == a[k]
  }

  lemma {:induction false} SubMapLists(a: seq<Pair>, b: seq<Pair>)
    requires Sorted(a) && forall i | 0 <= i < |a| :: Lookup(b, a[i].key) == Some(a[i].val)
    ensures SubMap(ToMap(a), ToMap(b))
  {
    forall k | k in ToMap(a) ensures k in ToMap(b) && ToMap(b)[k] == ToMap(a)[k] {
      LookupIsMap(a, k);
      LookupIsMap(b, k);
    }
  }

  lemma {:induction false} NotSubMap(a: seq<Pair>, b: seq<Pair>, i: nat)
    requires Sorted(a) && i < |a| && Lookup(b, a[i].key) != Some(a[i].val)
    ensures !SubMap(ToMap(a), ToMap(b))
  {
    PositionAt(a, i);
    LookupIsMap(a, a[i].key);
    LookupIsMap(b, a[i].key);
  }

  /** `hstore_contains`: the template is part of the value. */
  method Contains(val: HStore, tmpl: HStore) returns (res: bool)
    requires InOrder(val) && InOrder(tmpl)
    ensures res <==> SubMap(ToMap(Pairs(tmpl)), ToMap(Pairs(val)))
  {
    ghost var vs, ts := Pairs(val), Pairs(tmpl);
    var low := 0;
    for i := 0 to Count(tmpl)
      invariant Carried(vs, ts, i, low)
      invariant forall j | 0 <= j < i :: Lookup(vs, ts[j].key) == Some(ts[j].val)
    {
      var t := ReadPair(tmpl, i, ts);
      var idx, next := FindNext(val, vs, ts, i, t.key, low);
      low := next;
      var same := false;
      if idx >= 0 {
        var v := ReadPair(val, idx, vs);
        same := v.val == t.val;
      }
      if !same {
        NotSubMap(ts, vs, i);
        return false;
      }
    }
    SubMapLists(ts, vs);
    return true;
  }

  // ----- Slices -----

  /** For each of the first `n` keys that has a value: the key and that value. */
  function Chosen(ps: seq<Pair>, kp: seq<Pair>, n: nat): seq<Pair>
    requires n <= |kp|
  {
    if n == 0 then []
    else
      var r := Lookup(ps, kp[n - 1].key);
      if r.None? then Chosen(ps, kp, n - 1) else Chosen(ps, kp, n - 1) + [Pair(kp[n - 1].key, r.value)]
  }

  lemma {:induction false} ChosenSorted(ps: seq<Pair>, kp: seq<Pair>, n: nat, k: bytes)
    requires Sorted(kp) && n <= |kp| && (n == 0 || KeyLess(kp[n - 1].key, k))
    ensures var c := Chosen(ps, kp, n); Sorted(c) && (c == [] || KeyLess(c[|c| - 1].key, k))
  {
    if n > 0 {
      var key := kp[n - 1].key;
      if n > 1 { SortedBetween(kp, n - 2, n - 1); }
      ChosenSorted(ps, kp, n - 1, key);
      var c := Chosen(ps, kp, n - 1);
      if Lookup(ps, key).Some? {
        SortedAppend(c, Pair(key, Lookup(ps, key).value));
      } else if c != [] {
        KeyLessTransitive(c[|c| - 1].key, key, k);
      }
    }
  }

  lemma {:induction false} ChosenPairs(ps: seq<Pair>, kp: seq<Pair>, n: nat)
    requires n <= |kp|
    ensures forall p | p in Chosen(ps, kp, n) :: p.key in Keys(kp) && Lookup(ps, p.key) == Some(p.val)
    ensures forall i | 0 <= i < n && Lookup(ps, kp[i].key).Some? ::
              Pair(kp[i].key, Lookup(ps, kp[i].key).value) in Chosen(ps, kp, n)
  {
    if n > 0 {
      ChosenPairs(ps, kp, n - 1);
      assert kp[n - 1] in kp;
    }
  }

  /** The pairs chosen by sorted keys are sorted. */
  lemma {:induction false} ChosenIsSorted(ps: seq<Pair>, kp: seq<Pair>)
    requires Sorted(kp)
    ensures Sorted(Chosen(ps, kp, |kp|))
  {
    if kp != [] { ChosenSorted(ps, kp, |kp|, kp[|kp| - 1].key + [0]); }
  }

  ghost function Restriction(m: map<bytes, Option<bytes>>, keys: set<bytes>): map<bytes, Option<bytes>> {
    map k | k in m && k in keys :: m[k]
  }

  /** A slice is the map restricted to the keys. */
  lemma {:induction false} ChosenIsRestriction(ps: seq<Pair>, kp: seq<Pair>)
    requires Sorted(ps) && Sorted(kp)
    ensures Sorted(Chosen(ps, kp, |kp|))
    ensures ToMap(Chosen(ps, kp, |kp|)) == Restriction(ToMap(ps), Keys(kp))
  {
    var c := Chosen(ps, kp, |kp|);
    ChosenIsSorted(ps, kp);
    ChosenPairs(ps, kp, |kp|);
    forall k
      ensures k in ToMap(c) <==> k in ToMap(ps) && k in Keys(kp)
      ensures k in ToMap(c) ==> ToMap(c)[k] == ToMap(ps)[k]
    {
      LookupIsMap(ps, k);
      LookupIsMap(c, k);
      LookupKeys(c, k);
      if Lookup(ps, k).Some? && k in Keys(kp) {
        var q :| q in kp && q.key == k;
        var i :| 0 <= i < |kp| && kp[i] == q;
        LookupIn(c, Pair(k, Lookup(ps, k).value));
      }
    }
  }

  /** A list takes no more room than the first `low` pairs of another. */
  ghost predicate Fits(out: seq<Pair>, ps: seq<Pair>, low: nat) {
    |out| <= low <= |ps| && RoomOf(out, |out|) <= RoomOf(ps, low)
  }

  lemma {:induction false} FitsLater(out: seq<Pair>, ps: seq<Pair>, low: nat, next: nat)
    requires Fits(out, ps, low) && low <= next <= |ps|
    ensures Fits(out, ps, next)
  {
    if low < next { FitsLater(out, ps, low, next - 1); }
  }

  lemma {:induction false} FitsOneMore(out: seq<Pair>, ps: seq<Pair>, low: nat, idx: nat)
    requires Fits(out, ps, low) && low <= idx < |ps|
    ensures RoomOf(out + [ps[idx]], |out| + 1) == RoomOf(out, |out|) + |PairBytes(ps[idx])|
    ensures Fits(out + [ps[idx]], ps, idx + 1)
  {
    FitsLater(out, ps, low, idx);
    RoomAppend(out, ps[idx], |out|);
  }

  method CollectSlice(h: HStore, kp: seq<Pair>) returns (out: seq<Pair>, bufsiz: nat)
    requires InOrder(h) && Sorted(kp)
    ensures out == Chosen(Pairs(h), kp, |kp|) && bufsiz == RoomOf(out, |out|)
    ensures Fits(out, Pairs(h), Count(h))
  {
    ghost var ps := Pairs(h);
    var low := 0;
    out, bufsiz := [], 0;
    for i := 0 to |kp|
      invariant Carried(ps, kp, i, low) && Fits(out, ps, low)
      invariant out == Chosen(ps, kp, i) && bufsiz == RoomOf(out, |out|)
    {
      out, bufsiz, low := SliceNext(h, ps, kp, i, kp[i].key, low, out, bufsiz);
    }
    FitsLater(out, ps, low, |ps|);
  }

  /** One round of the loop: the pair with the next key, if there is one. */
  method SliceNext(h: HStore, ghost ps: seq<Pair>, ghost kp: seq<Pair>, ghost i: nat,
                   key: bytes, low: nat, out: seq<Pair>, bufsiz: nat)
    returns (out': seq<Pair>, bufsiz': nat, next: nat)
    requires InOrder(h) && ps == Pairs(h)
    requires Sorted(kp) && i < |kp| && kp[i].key == key && Carried(ps, kp, i, low)
    requires Fits(out, ps, low) && bufsiz == RoomOf(out, |out|)
    ensures out' == if Lookup(ps, key).None? then out else out + [Pair(key, Lookup(ps, key).value)]
    ensures Carried(ps, kp, i + 1, next) && Fits(out', ps, next) && bufsiz' == RoomOf(out', |out'|)
  {
    var idx;
    idx, next := FindNext(h, ps, kp, i, key, low);
    if idx < 0 {
      FitsLater(out, ps, low, next);
      return out, bufsiz, next;
    }
    FitsOneMore(out, ps, low, idx);
    var p := ReadPair(h, idx, ps);
    out', bufsiz' := out + [p], bufsiz + |PairBytes(p)|;
  }

  method ReadPair(h: HStore, i: nat, ghost ps: seq<Pair>) returns (p: Pair)
    requires WellFormed(h) && ps == Pairs(h) && i < |ps|
    ensures p == ps[i]
  {
    PairsAt(h, i);
    p := PairAt(h, i);
  }

  /** `hstore_slice_to_hstore`: the value restricted to the keys given. */
  method SliceToHstore(h: HStore, keys: seq<Option<bytes>>) returns (r: Option<HStore>)
    requires Canonical(h)
    ensures r.None? <==> |keys| > MAX_PAIRS
    ensures r.Some? ==> Canonical(r.value)
    ensures r.Some? ==> ToMap(Pairs(r.value)) == Restriction(ToMap(Pairs(h)), KeysIn(keys))
  {
    var kp := ArrayToPairs(keys);
    if kp.None? { return None; }
    var out, bufsiz := CollectSlice(h, kp.value);
    RoomIsLength(out, |out|);
    r := FromPairs(out, bufsiz);
    SizeOfPairs(h);
    ChosenIsRestriction(Pairs(h), kp.value);
    PackThenRead(out);
  }

  lemma {:induction false} SizeOfPairs(h: HStore)
    requires Canonical(h)
    ensures RoomOf(Pairs(h), Count(h)) == |h.buf|
  {
    RoomIsLength(Pairs(h), Count(h));
    ReadThenPack(h);
  }
}
