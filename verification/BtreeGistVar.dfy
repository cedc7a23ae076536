/**
 * Variable-length GiST keys of btree_gist for `bytea`: an entry above the leaves stores
 * a lower and an upper bound cut to a few bytes past their common prefix, so the stored
 * upper bound can lie below values under the entry; searches repair this by matching
 * prefixes.
 */
module BtreeGistVar {
  import opened Options
  import opened Bytea

  /** Readable form of a key: a leaf entry has equal bounds. */
  datatype Key = Key(lower: bytes, upper: bytes)

  datatype Strategy = LessEqual | Below | Equal | Above | GreaterEqual | NotEqual | Unknown

  // ----- Pure parts: prefix match, truncation, the consistent method -----

  predicate NodePfMatch(key: Key, query: bytes) {
    IsPrefix(key.lower, query) || IsPrefix(key.upper, query)
  }

  function NodeTruncate(node: Key, cpfLength: nat): Key {
    Key(Take(node.lower, cpfLength + 1), Take(node.upper, cpfLength + 1))
  }

  predicate Consistent(key: Key, query: bytes, strategy: Strategy, isLeaf: bool) {
    match strategy
    case LessEqual =>
      if isLeaf then Cmp(query, key.lower) >= 0
      else Cmp(query, key.lower) >= 0 || NodePfMatch(key, query)
    case Below =>
      if isLeaf then Cmp(query, key.lower) > 0
      else Cmp(query, key.lower) >= 0 || NodePfMatch(key, query)
    case Equal =>
      if isLeaf then Cmp(query, key.lower) == 0
      else (Cmp(key.lower, query) <= 0 && Cmp(query, key.upper) <= 0) || NodePfMatch(key, query)
    case Above =>
      if isLeaf then Cmp(query, key.upper) < 0
      else Cmp(query, key.upper) <= 0 || NodePfMatch(key, query)
    case GreaterEqual =>
      if isLeaf then Cmp(query, key.upper) <= 0
      else Cmp(query, key.upper) <= 0 || NodePfMatch(key, query)
    case NotEqual =>
      !(Cmp(query, key.lower) == 0 && Cmp(query, key.upper) == 0)
    case Unknown => false
  }

  /** What the operator of each strategy asks of a stored value. */
  predicate Satisfies(strategy: Strategy, v: bytes, query: bytes) {
    match strategy
    case LessEqual => Leq(v, query)
    case Below => Less(v, query)
    case Equal => v == query
    case Above => Less(query, v)
    case GreaterEqual => Leq(query, v)
    case NotEqual => v != query
    case Unknown => false
  }

  // ----- Specifications of the unions -----

  function MinOf(a: bytes, b: bytes): bytes { if Cmp(a, b) > 0 then b else a }

  function MaxOf(a: bytes, b: bytes): bytes { if Cmp(a, b) < 0 then b else a }

  function Join(a: Key, b: Key): Key { Key(MinOf(a.lower, b.lower), MaxOf(a.upper, b.upper)) }

  /** Smallest lower and greatest upper bound of the first `n` entries, uncut. */
  function HullOf(ks: seq<Key>, n: nat): Key
    requires 0 < n <= |ks|
  {
    if n == 1 then ks[0] else Join(HullOf(ks, n - 1), ks[n - 1])
  }

  function Hull(ks: seq<Key>): Key
    requires |ks| > 0
  {
    HullOf(ks, |ks|)
  }

  function CpLen(k: Key): nat { Lcp(k.lower, k.upper) }

  /** The key that `gbt_var_union` stores. */
  function UnionKey(ks: seq<Key>): Key
    requires |ks| > 0
  {
    NodeTruncate(Hull(ks), CpLen(Hull(ks)) + 1)
  }

  /** Bytes kept of two side hulls: two past the longer of their common prefixes. */
  function KeepLen(l: Key, r: Key): nat { (if CpLen(l) < CpLen(r) then CpLen(r) else CpLen(l)) + 2 }

  function CutSide(near: Key, far: Key): Key { NodeTruncate(near, KeepLen(near, far) - 1) }

  /** The key that `gbt_var_picksplit` stores for the side `near`. */
  function SplitKey(near: seq<Key>, far: seq<Key>): Key
    requires |near| > 0 && |far| > 0
  {
    CutSide(Hull(near), Hull(far))
  }

  // ----- The loops of the source -----

  method NodeCpLen(node: Key) returns (i: nat)
    ensures i == CpLen(node)
  {
    var ml := if |node.lower| < |node.upper| then |node.lower| else |node.upper|;
    i := 0;
    if ml == 0 { return; }
    while i < ml
      invariant i <= ml
      invariant forall j | 0 <= j < i :: node.lower[j] == node.upper[j]
    {
      if node.lower[i] != node.upper[i] {
        LcpIs(node.lower, node.upper, i);
        return;
      }
      i := i + 1;
    }
    LcpIs(node.lower, node.upper, i);
  }

  method BinUnion(u: Option<Key>, e: Key) returns (r: Key)
    ensures r == if u.Some? then Join(u.value, e) else e
  {
    if u.None? { return e; }
    r := u.value;
    if Cmp(u.value.lower, e.lower) > 0 { r := r.(lower := e.lower); }
    if Cmp(u.value.upper, e.upper) < 0 { r := r.(upper := e.upper); }
  }

  method Union(entries: seq<Key>) returns (r: Key)
    requires |entries| > 0
    ensures r == UnionKey(entries) && CutTo(r, Hull(entries), CpLen(Hull(entries)) + 2)
  {
    var out := entries[0];
    for i := 1 to |entries|
      invariant out == HullOf(entries, i)
    {
      out := BinUnion(Some(out), entries[i]);
    }
    var plen := NodeCpLen(out);
    r := NodeTruncate(out, plen + 1);
  }

  predicate KeyLeq(a: Key, b: Key) {
    Less(a.lower, b.lower) || (a.lower == b.lower && Leq(a.upper, b.upper))
  }

  /** An entry on its way through the sort: its offset and its key. */
  datatype Vsrt = Vsrt(i: nat, t: Key)

  ghost predicate SortedEntries(arr: seq<Vsrt>) {
    forall i, j {:trigger KeyLeq(arr[i].t, arr[j].t)} | 0 <= i < j < |arr| :: KeyLeq(arr[i].t, arr[j].t)
  }

  /** The entries of a page with their offsets, which start at one. */
  function Numbered(entries: seq<Key>): (vs: seq<Vsrt>)
    ensures |vs| == |entries|
  {
    if entries == [] then [] else
      Numbered(entries[..|entries| - 1]) + [Vsrt(|entries|, entries[|entries| - 1])]
  }

  function Keys(vs: seq<Vsrt>): seq<Key> { seq(|vs|, i requires 0 <= i < |vs| => vs[i].t) }

  lemma KeyLeqTransitive(a: Key, b: Key, c: Key)
    requires KeyLeq(a, b) && KeyLeq(b, c)
    ensures KeyLeq(a, c)
  {
    LeqReflexive(b.lower);
    if a.lower == b.lower && b.lower == c.lower {
      LeqTransitive(a.upper, b.upper, c.upper);
    } else {
      LeqTransitive(a.lower, b.lower, c.lower);
    }
  }

  lemma KeyLeqTotal(a: Key, b: Key)
    ensures KeyLeq(a, b) || KeyLeq(b, a)
  {
    LeqTotal(a.lower, b.lower);
    CmpZero(a.lower, b.lower);
    LeqTotal(a.upper, b.upper);
  }

  /** Stands for the library sort: it promises a sorted permutation and nothing about ties. */
  method SortEntries(vs: seq<Vsrt>) returns (arr: seq<Vsrt>)
    ensures SortedEntries(arr) && multiset(arr) == multiset(vs) && |arr| == |vs|
  {
    arr := [];
    for n := 0 to |vs|
      invariant SortedEntries(arr) && multiset(arr) == multiset(vs[..n]) && |arr| == n
    {
      arr := InsertSorted(arr, vs[n]);
      assert vs[..n + 1] == vs[..n] + [vs[n]];
    }
    assert vs[..|vs|] == vs;
  }

  method InsertSorted(arr: seq<Vsrt>, v: Vsrt) returns (r: seq<Vsrt>)
    requires SortedEntries(arr)
    ensures SortedEntries(r) && multiset(r) == multiset(arr) + multiset{v} && |r| == |arr| + 1
  {
    var p := 0;
    while p < |arr| && KeyLeq(arr[p].t, v.t)
      invariant 0 <= p <= |arr|
      invariant forall i | 0 <= i < p :: KeyLeq(arr[i].t, v.t)
    {
      p := p + 1;
    }
    forall j | p <= j < |arr|
      ensures KeyLeq(v.t, arr[j].t)
    {
      KeyLeqTotal(arr[p].t, v.t);
      if p < j { KeyLeqTransitive(v.t, arr[p].t, arr[j].t); }
    }
    assert arr == arr[..p] + arr[p..];
    r := arr[..p] + [v] + arr[p..];
  }

  /** The datum of a side that has received `n` of its entries: no key before the first. */
  function SideDatum(ks: seq<Key>, n: nat): Option<Key>
    requires n <= |ks|
  {
    if n == 0 then None else Some(HullOf(ks, n))
  }

  /**
   * The loop of `gbt_var_picksplit` that deals sorted entries to the two sides: the first
   * `nleft` go left, the rest right.
   */
  method DealHalves(ks: seq<Key>) returns (nleft: nat, l: Option<Key>, r: Option<Key>)
    requires |ks| >= 2
    ensures nleft == |ks| / 2
    ensures l == Some(Hull(ks[..nleft])) && r == Some(Hull(ks[nleft..]))
  {
    var half := |ks| / 2;
    ghost var lks, rks := ks[..half], ks[half..];
    var nright := 0;
    nleft, l, r := 0, None, None;
    for i := 0 to |ks|
      invariant nleft + nright == i && nleft <= half && (nleft < half ==> nright == 0)
      invariant l == SideDatum(lks, nleft) && r == SideDatum(rks, nright)
    {
      if i + 1 <= half {
        var u := BinUnion(l, ks[i]);
        l, nleft := Some(u), nleft + 1;
      } else {
        var u := BinUnion(r, ks[i]);
        r, nright := Some(u), nright + 1;
      }
    }
    assert nleft == |lks| && nright == |rks|;
  }

  /** The left vector of the split is `arr[..nleft]`, the right vector `arr[nleft..]`. */
  method PickSplit(entries: seq<Key>) returns (arr: seq<Vsrt>, nleft: nat, lkey: Key, rkey: Key)
    requires |entries| >= 2
    ensures SortedEntries(arr) && multiset(arr) == multiset(Numbered(entries))
    ensures |arr| == |entries| && nleft == |arr| / 2
    ensures forall i, j | 0 <= i < nleft <= j < |arr| :: Leq(arr[i].t.lower, arr[j].t.lower)
    ensures lkey == SplitKey(Keys(arr)[..nleft], Keys(arr)[nleft..])
    ensures rkey == SplitKey(Keys(arr)[nleft..], Keys(arr)[..nleft])
    ensures SideOf(lkey, Keys(arr)[..nleft], Keys(arr)[nleft..]) && SideOf(rkey, Keys(arr)[nleft..], Keys(arr)[..nleft])
  {
    arr := SortEntries(Numbered(entries));
    var l, r;
    nleft, l, r := DealHalves(Keys(arr));
    lkey, rkey := TruncateSides(l.value, r.value);
    forall i, j | 0 <= i < nleft <= j < |arr| ensures Leq(arr[i].t.lower, arr[j].t.lower) {
      assert KeyLeq(arr[i].t, arr[j].t);
      LeqReflexive(arr[i].t.lower);
    }
    SideIs(Keys(arr)[..nleft], Keys(arr)[nleft..]);
    SideIs(Keys(arr)[nleft..], Keys(arr)[..nleft]);
  }

  method TruncateSides(l: Key, r: Key) returns (dl: Key, dr: Key)
    ensures dl == CutSide(l, r) && dr == CutSide(r, l)
    ensures var n := Longer(CpLen(l), CpLen(r)) + 2; CutTo(dl, l, n) && CutTo(dr, r, n)
  {
    var ll := NodeCpLen(l);
    var lr := NodeCpLen(r);
    ll := if ll < lr then lr else ll;
    ll := ll + 1;
    dl := NodeTruncate(l, ll);
    dr := NodeTruncate(r, ll);
  }

  // ----- What is kept of a side -----

  function Longer(m: nat, n: nat): nat { if m < n then n else m }

  /** The first bytes of a bound, at most `n`, and all `n` unless the bound is shorter. */
  predicate FirstBytes(a: bytes, b: bytes, n: nat) {
    IsPrefix(a, b) && |a| <= n && (|a| < n ==> a == b)
  }

  predicate CutTo(k: Key, h: Key, n: nat) { FirstBytes(k.lower, h.lower, n) && FirstBytes(k.upper, h.upper, n) }

  /** No search is turned away at `k` that accepts a value which an entry covers. */
  ghost predicate KeepsAll(k: Key, es: seq<Key>) {
    forall i: nat, v | i < |es| && ValidKey(es[i]) && Covers(es[i], v) :: NeverRejects(k, v)
  }

  /**
   * The key of a side of a split has the first bytes of the side's hull, at most two more than the
   * longer of the two common prefixes. Nothing is lost on the side whose common prefix is the longer.
   */
  ghost predicate SideOf(k: Key, near: seq<Key>, far: seq<Key>)
    requires |near| > 0 && |far| > 0
  {
    var h, g := Hull(near), Hull(far);
    CutTo(k, h, Longer(CpLen(h), CpLen(g)) + 2) && (CpLen(g) <= CpLen(h) ==> KeepsAll(k, near))
  }

  lemma {:induction false} SideIs(near: seq<Key>, far: seq<Key>)
    requires |near| > 0 && |far| > 0
    ensures SideOf(SplitKey(near, far), near, far)
  {
    var h, g, k := Hull(near), Hull(far), SplitKey(near, far);
    if CpLen(g) <= CpLen(h) {
      forall i: nat, v | i < |near| && ValidKey(near[i]) && Covers(near[i], v) ensures NeverRejects(k, v) {
        LongerSideKeeps(near, far, i, v);
      }
    }
  }

  lemma {:induction false} LongerSideKeeps(near: seq<Key>, far: seq<Key>, i: nat, v: bytes)
    requires i < |near| && |far| > 0 && CpLen(Hull(far)) <= CpLen(Hull(near))
    requires ValidKey(near[i]) && Covers(near[i], v)
    ensures NeverRejects(SplitKey(near, far), v)
  {
    var h := Hull(near);
    HullBounds(near, |near|, i);
    EntryAgainstHull(near[i], h, v);
    OwnCutCovers(near[i], h, CpLen(h) + 2, v);
    TruncateValid(h, CpLen(h) + 1);
    CoversNeverRejects(SplitKey(near, far), v);
  }

  // ----- What a stored key promises about the values below it -----

  ghost predicate ValidKey(k: Key) { Leq(k.lower, k.upper) }

  /** The upper bound is long enough to have been cut, so values may extend it. */
  predicate MayBeCut(k: Key) { |k.upper| >= CpLen(k) + 2 }

  ghost predicate Covers(k: Key, v: bytes) {
    && Leq(k.lower, v)
    && (Leq(v, k.upper) || (IsPrefix(k.upper, v) && MayBeCut(k)))
  }

  /** No search whose operator accepts `v` is turned away at an inner entry with this key. */
  ghost predicate NeverRejects(k: Key, v: bytes) {
    forall query, strategy | Satisfies(strategy, v, query) :: Consistent(k, query, strategy, false)
  }

  /** The same, said of the bounds alone. */
  predicate WithinReach(k: Key, v: bytes) {
    && Leq(k.lower, v)
    && (Leq(v, k.upper) || IsPrefix(k.upper, v) || IsPrefix(k.lower, v))
    && (k.lower == k.upper ==> v == k.lower)
  }

  /** An entry whose uncovered tail survives in the side key `s` of a split. */
  predicate SafeIn(e: Key, s: Key) {
    || !MayBeCut(e)
    || !IsPrefix(e.upper, s.upper)
    || (forall i | |e.upper| <= i < |s.upper| :: s.upper[i] == 255)
  }

  lemma JoinBounds(a: Key, b: Key)
    ensures Leq(Join(a, b).lower, a.lower) && Leq(Join(a, b).lower, b.lower)
    ensures Leq(a.upper, Join(a, b).upper) && Leq(b.upper, Join(a, b).upper)
  {
    LeqReflexive(a.lower); LeqReflexive(b.lower); LeqReflexive(a.upper); LeqReflexive(b.upper);
    LeqTotal(a.lower, b.lower);
    LeqTotal(a.upper, b.upper);
  }

  /** The hull encloses every entry. */
  lemma {:induction false} HullBounds(ks: seq<Key>, n: nat, i: nat)
    requires i < n <= |ks|
    ensures Leq(HullOf(ks, n).lower, ks[i].lower) && Leq(ks[i].upper, HullOf(ks, n).upper)
  {
    if n == 1 {
      LeqReflexive(ks[0].lower); LeqReflexive(ks[0].upper);
    } else {
      var h := HullOf(ks, n - 1);
      JoinBounds(h, ks[n - 1]);
      if i < n - 1 {
        HullBounds(ks, n - 1, i);
        LeqTransitive(HullOf(ks, n).lower, h.lower, ks[i].lower);
        LeqTransitive(ks[i].upper, h.upper, HullOf(ks, n).upper);
      }
    }
  }

  /** Both bounds of the hull are bounds of entries, so it is the tightest such key. */
  lemma {:induction false} HullAttained(ks: seq<Key>, n: nat) returns (i: nat, j: nat)
    requires 0 < n <= |ks|
    ensures i < n && HullOf(ks, n).lower == ks[i].lower
    ensures j < n && HullOf(ks, n).upper == ks[j].upper
  {
    i, j := n - 1, n - 1;
    if n > 1 {
      var h := HullOf(ks, n - 1);
      var i', j' := HullAttained(ks, n - 1);
      if Cmp(h.lower, ks[i].lower) <= 0 { i := i'; }
      if Cmp(h.upper, ks[j].upper) >= 0 { j := j'; }
    }
  }

  /** A key cut after `k` bytes still reaches everything whose first `k` bytes fit. */
  lemma CutCovers(h: Key, k: nat, v: bytes)
    requires ValidKey(h) && k >= CpLen(h) + 2
    requires Leq(h.lower, v) && Leq(Take(v, k), Take(h.upper, k))
    ensures Covers(NodeTruncate(h, k - 1), v)
  {
    TakeIsPrefix(h.lower, k);
    LeqTransitive(Take(h.lower, k), h.lower, v);
    BelowCut(v, h.upper, k);
    LcpTake(h.lower, h.upper, k);
  }

  lemma TruncateValid(h: Key, k: nat)
    requires ValidKey(h)
    ensures ValidKey(NodeTruncate(h, k))
  {
    TakeMonotone(h.lower, h.upper, k + 1);
  }

  /** The prefix of a value that stands for it under entry `e`, against the hull of a page. */
  lemma EntryAgainstHull(e: Key, h: Key, v: bytes)
    requires ValidKey(e) && Leq(h.lower, e.lower) && Leq(e.upper, h.upper) && Covers(e, v)
    ensures ValidKey(h) && Leq(h.lower, v) && CpLen(h) <= CpLen(e)
  {
    LeqTransitive(h.lower, e.lower, e.upper);
    LeqTransitive(h.lower, e.upper, h.upper);
    LeqTransitive(h.lower, e.lower, v);
    LcpShrinks(h.lower, e.lower, e.upper, h.upper);
  }

  lemma TakeOfExtension(p: bytes, v: bytes, k: nat)
    requires IsPrefix(p, v) && k <= |p|
    ensures Take(v, k) == Take(p, k)
  {
    assert v[..k] == p[..k];
  }

  /** Cutting a hull to two bytes past its own common prefix never loses a covered value. */
  lemma OwnCutCovers(e: Key, h: Key, k: nat, v: bytes)
    requires ValidKey(e) && Leq(h.lower, e.lower) && Leq(e.upper, h.upper) && Covers(e, v)
    requires k >= CpLen(h) + 2
    requires Leq(v, e.upper) || k <= |e.upper|
    ensures Covers(NodeTruncate(h, k - 1), v)
  {
    EntryAgainstHull(e, h, v);
    assert Leq(Take(v, k), Take(h.upper, k)) by {
      if Leq(v, e.upper) {
        LeqTransitive(v, e.upper, h.upper);
        TakeMonotone(v, h.upper, k);
      } else {
        TakeMonotone(e.upper, h.upper, k);
        TakeOfExtension(e.upper, v, k);
      }
    }
    CutCovers(h, k, v);
  }

  /** Unions of possibly cut keys cover whatever the united entries cover. */
  lemma UnionCovers(ks: seq<Key>, i: nat, v: bytes)
    requires i < |ks| && ValidKey(ks[i]) && Covers(ks[i], v)
    ensures ValidKey(UnionKey(ks)) && Covers(UnionKey(ks), v)
  {
    HullBounds(ks, |ks|, i);
    EntryAgainstHull(ks[i], Hull(ks), v);
    OwnCutCovers(ks[i], Hull(ks), CpLen(Hull(ks)) + 2, v);
    TruncateValid(Hull(ks), CpLen(Hull(ks)) + 1);
  }

  // ----- Splits: exactly when a side key keeps covering its entries -----

  /** Sufficiency: a safe entry stays covered by a hull cut anywhere past its own prefix. */
  lemma SafeCutCovers(e: Key, h: Key, k: nat, v: bytes)
    requires ValidKey(e) && Leq(h.lower, e.lower) && Leq(e.upper, h.upper) && Covers(e, v)
    requires k >= CpLen(h) + 2 && SafeIn(e, NodeTruncate(h, k - 1))
    ensures Covers(NodeTruncate(h, k - 1), v)
  {
    var s := NodeTruncate(h, k - 1);
    if Leq(v, e.upper) || k <= |e.upper| {
      OwnCutCovers(e, h, k, v);
    } else {
      EntryAgainstHull(e, h, v);
      TakeIsPrefix(h.lower, k);
      LeqTransitive(s.lower, h.lower, v);
      TakeMonotone(e.upper, h.upper, k);
      assert Leq(e.upper, s.upper);
      if !IsPrefix(e.upper, s.upper) {
        ExtensionsBelow(e.upper, s.upper, v);
      } else {
        LcpTake(h.lower, h.upper, k);
        assert MayBeCut(s);
        AllOnesTail(e.upper, s.upper, v);
      }
    }
  }

  /** If a bound continues `p` with bytes 255 only, every extension of `p` fits it or extends it. */
  lemma AllOnesTail(p: bytes, u: bytes, v: bytes)
    requires IsPrefix(p, u) && IsPrefix(p, v)
    requires forall i | |p| <= i < |u| :: u[i] == 255
    ensures Leq(v, u) || IsPrefix(u, v)
  {
    PrefixIsLeq(u, v);
    LcpSymmetric(u, v);
    var n := Lcp(v, u);
    if n < |v| && n < |u| {
      assert n >= |p|;
      assert u[n] == 255;
    }
  }

  /** A byte string above `u` that extends `p` and does not extend `u`. */
  function Escaping(p: bytes, u: bytes, i: nat): (v: bytes)
    requires IsPrefix(p, u) && |p| <= i < |u| && u[i] != 255
    ensures IsPrefix(p, v) && !IsPrefix(u, v) && Less(u, v)
  {
    var v: bytes := u[..i] + [u[i] + 1];
    LcpIs(u, v, i);
    v
  }

  /** Necessity: an unsafe entry covers a value that the side key loses. */
  lemma UnsafeLoses(e: Key, s: Key) returns (v: bytes)
    requires ValidKey(e) && !SafeIn(e, s)
    ensures Covers(e, v) && !Leq(v, s.upper) && !IsPrefix(s.upper, v) && IsPrefix(e.upper, v)
  {
    var i :| |e.upper| <= i < |s.upper| && s.upper[i] != 255;
    v := Escaping(e.upper, s.upper, i);
    LeqTotal(s.upper, v);
    PrefixIsLeq(e.upper, v);
    LeqTransitive(e.lower, e.upper, v);
  }

  /** The side keys of a split as cut hulls. */
  lemma SideIsCutHull(near: seq<Key>, far: seq<Key>, i: nat)
    requires i < |near| && |far| > 0 && ValidKey(near[i])
    ensures KeepLen(Hull(near), Hull(far)) >= CpLen(Hull(near)) + 2
    ensures Leq(Hull(near).lower, near[i].lower) && Leq(near[i].upper, Hull(near).upper)
    ensures ValidKey(SplitKey(near, far)) && Leq(SplitKey(near, far).lower, near[i].lower)
  {
    HullBounds(near, |near|, i);
    LeqTransitive(Hull(near).lower, near[i].lower, near[i].upper);
    LeqTransitive(Hull(near).lower, near[i].upper, Hull(near).upper);
    TruncateValid(Hull(near), KeepLen(Hull(near), Hull(far)) - 1);
    TakeIsPrefix(Hull(near).lower, KeepLen(Hull(near), Hull(far)));
    LeqTransitive(SplitKey(near, far).lower, Hull(near).lower, near[i].lower);
  }

  /** The side key of a split covers all an entry covers if and only if the entry is safe in it. */
  lemma SplitCoversIff(near: seq<Key>, far: seq<Key>, i: nat)
    requires i < |near| && |far| > 0 && ValidKey(near[i])
    ensures (forall v | Covers(near[i], v) :: Covers(SplitKey(near, far), v))
            <==> SafeIn(near[i], SplitKey(near, far))
  {
    var e, s := near[i], SplitKey(near, far);
    SideIsCutHull(near, far, i);
    if SafeIn(e, s) {
      forall v | Covers(e, v) ensures Covers(s, v) {
        SafeCutCovers(e, Hull(near), KeepLen(Hull(near), Hull(far)), v);
      }
    } else {
      var v := UnsafeLoses(e, s);
      assert !Covers(s, v);
    }
  }

  /**
   * The side key of a split lets every search through that an entry's values can satisfy
   * if and only if the entry is safe in it, or its upper bound starts with the side's
   * lower bound.
   */
  lemma SplitFindsIff(near: seq<Key>, far: seq<Key>, i: nat)
    requires i < |near| && |far| > 0 && ValidKey(near[i])
    ensures (forall v | Covers(near[i], v) :: NeverRejects(SplitKey(near, far), v))
            <==> SafeIn(near[i], SplitKey(near, far)) || IsPrefix(SplitKey(near, far).lower, near[i].upper)
  {
    var e, s := near[i], SplitKey(near, far);
    SideIsCutHull(near, far, i);
    if SafeIn(e, s) || IsPrefix(s.lower, e.upper) {
      forall v | Covers(e, v) ensures NeverRejects(s, v) {
        SideReaches(near, far, i, v);
        NeverRejectsIff(s, v);
      }
    } else {
      var v := UnsafeLoses(e, s);
      if IsPrefix(s.lower, v) {
        LeqTransitive(s.lower, e.lower, e.upper);
        PrefixIsLeq(e.upper, v);
        BetweenPrefix(s.lower, e.upper, v);
        assert false;
      }
      NeverRejectsIff(s, v);
    }
  }

  lemma SideReaches(near: seq<Key>, far: seq<Key>, i: nat, v: bytes)
    requires i < |near| && |far| > 0 && ValidKey(near[i]) && Covers(near[i], v)
    requires SafeIn(near[i], SplitKey(near, far)) || IsPrefix(SplitKey(near, far).lower, near[i].upper)
    ensures WithinReach(SplitKey(near, far), v)
  {
    var e, s := near[i], SplitKey(near, far);
    SideIsCutHull(near, far, i);
    if SafeIn(e, s) {
      SafeCutCovers(e, Hull(near), KeepLen(Hull(near), Hull(far)), v);
      CoversWithinReach(s, v);
    } else if Leq(v, e.upper) {
      OwnCutCovers(e, Hull(near), KeepLen(Hull(near), Hull(far)), v);
      CoversWithinReach(s, v);
    } else {
      LeqTransitive(s.lower, e.lower, v);
    }
  }

  lemma CoversWithinReach(k: Key, v: bytes)
    requires ValidKey(k) && Covers(k, v)
    ensures WithinReach(k, v)
  {
    if k.lower == k.upper {
      LeqReflexive(k.lower);
      LeqAntisymmetric(k.lower, v);
    }
  }

  // ----- The consistent method against the bounds -----

  /** Every accepted query gets through exactly when the value is within reach of the bounds. */
  lemma NeverRejectsIff(k: Key, v: bytes)
    requires ValidKey(k)
    ensures NeverRejects(k, v) <==> WithinReach(k, v)
  {
    LeqReflexive(v);
    if WithinReach(k, v) {
      forall query, strategy | Satisfies(strategy, v, query)
        ensures Consistent(k, query, strategy, false)
      {
        ReachIsConsistent(k, v, query, strategy);
      }
    }
    if NeverRejects(k, v) {
      ConsistentIsReach(k, v);
    }
  }

  lemma ConsistentIsReach(k: Key, v: bytes)
    requires ValidKey(k) && NeverRejects(k, v)
    ensures WithinReach(k, v)
  {
    LeqReflexive(v);
    assert Consistent(k, v, LessEqual, false);
    assert Consistent(k, v, Equal, false);
    PrefixIsLeq(k.lower, v);
    PrefixIsLeq(k.upper, v);
    LeqTotal(v, k.lower);
    if IsPrefix(k.upper, v) { LeqTransitive(k.lower, k.upper, v); }
    if k.lower == k.upper && v != k.lower {
      assert Satisfies(NotEqual, v, k.lower);
      CmpZero(k.lower, k.lower);
    }
  }

  lemma ReachIsConsistent(k: Key, v: bytes, query: bytes, strategy: Strategy)
    requires ValidKey(k) && WithinReach(k, v) && Satisfies(strategy, v, query)
    ensures Consistent(k, query, strategy, false)
  {
    LeqTotal(k.lower, query);
    LeqTotal(query, v);
    match strategy
    case LessEqual => LeqTransitive(k.lower, v, query);
    case Below => LeqTransitive(k.lower, v, query);
    case Equal =>
    case Above => UpperReach(k, v, query);
    case GreaterEqual => UpperReach(k, v, query);
    case NotEqual => CmpZero(query, k.lower); CmpZero(query, k.upper);
  }

  /** Queries at or below a value within reach stay under the upper bound or match a prefix. */
  lemma UpperReach(k: Key, v: bytes, query: bytes)
    requires ValidKey(k) && WithinReach(k, v) && Leq(query, v)
    ensures Leq(query, k.upper) || NodePfMatch(k, query)
  {
    LeqTotal(query, k.upper);
    if Leq(v, k.upper) {
      LeqTransitive(query, v, k.upper);
    } else if Leq(k.upper, query) {
      if IsPrefix(k.upper, v) {
        BetweenPrefix(k.upper, query, v);
      } else {
        LeqTransitive(k.lower, k.upper, query);
        BetweenPrefix(k.lower, query, v);
      }
    }
  }

  lemma CoversNeverRejects(k: Key, v: bytes)
    requires ValidKey(k) && Covers(k, v)
    ensures NeverRejects(k, v)
  {
    CoversWithinReach(k, v);
    NeverRejectsIff(k, v);
  }
}
