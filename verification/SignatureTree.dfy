/**
 * Trees of signature keys over the rows of a table: what every key covers, and how rows and
 * pages get their keys.
 */
module SignatureTree {
  import opened Permutations
  import opened Signatures
  import opened SignatureSplit

  /** An entry points to a row of the table or to a page of entries. */
  datatype Tree = Row(tid: nat) | Page(entries: seq<Entry>)

  datatype Entry = Entry(key: Key, child: Tree)

  /** For each row of the table the hashes of what is in it. */
  type Table = seq<seq<nat>>

  ghost predicate HasRow(e: Entry, tid: nat) {
    match e.child
    case Row(t) => tid == t
    case Page(es) => exists i: nat :: i < |es| && HasRow(es[i], tid)
  }

  /** `k` has the bits of all hashes. */
  ghost predicate Covers(k: Key, hashes: seq<nat>, bits: nat) { IsKey(k, bits) && forall h | h in hashes :: Bit(k, h) }

  /** The key of an entry covers a row. */
  ghost predicate CoversRow(k: Key, table: Table, bits: nat, tid: nat) {
    tid < |table| && InRange(table[tid], bits) && Covers(k, table[tid], bits)
  }

  /** The key of a row has exactly its bits; the key of a page covers every row below it. */
  ghost predicate WellKeyed(e: Entry, table: Table, bits: nat) {
    match e.child
    case Row(t) => t < |table| && InRange(table[t], bits) && SignsExactly(e.key, table[t], bits)
    case Page(es) =>
      && IsKey(e.key, bits)
      && (forall i: nat | i < |es| :: WellKeyed(es[i], table, bits))
      && forall tid: nat | HasRow(e, tid) :: CoversRow(e.key, table, bits, tid)
  }

  lemma KeyCoversRows(e: Entry, table: Table, bits: nat, tid: nat)
    requires WellKeyed(e, table, bits) && HasRow(e, tid)
    ensures IsKey(e.key, bits) && CoversRow(e.key, table, bits, tid)
  {
  }

  // ----- Search -----

  /** The test of an entry lets a key through if it may lead to the row; a leaf's key is that of the row. */
  ghost predicate LetsThrough(passes: (Key, bool) -> bool, k: Key, leaf: bool, hashes: seq<nat>, bits: nat) {
    Covers(k, hashes, bits) && (leaf ==> SignsExactly(k, hashes, bits)) ==> passes(k, leaf)
  }

  /** The test never stops the search for a wanted row. */
  ghost predicate NeverRejects(passes: (Key, bool) -> bool, table: Table, bits: nat, wanted: set<nat>) {
    forall tid: nat, k, leaf | tid in wanted && tid < |table| :: LetsThrough(passes, k, leaf, table[tid], bits)
  }

  /** Search finds every wanted row, and only rows of the tree; the caller rechecks them. */
  method Search(e: Entry, passes: (Key, bool) -> bool, ghost table: Table, bits: nat, ghost wanted: set<nat>)
    returns (found: seq<nat>)
    requires WellKeyed(e, table, bits) && NeverRejects(passes, table, bits, wanted)
    ensures forall tid: nat | HasRow(e, tid) && tid in wanted :: tid in found
    ensures forall tid: nat | tid in found :: HasRow(e, tid)
    decreases e
  {
    if !passes(e.key, e.child.Row?) {
      forall tid: nat | HasRow(e, tid) ensures tid !in wanted {
        KeyCoversRows(e, table, bits, tid);
        assert tid in wanted ==> LetsThrough(passes, e.key, e.child.Row?, table[tid], bits);
      }
      return [];
    }
    match e.child
    case Row(tid) =>
      return [tid];
    case Page(es) =>
      found := [];
      for n := 0 to |es|
        invariant forall i: nat, tid: nat | i < n && HasRow(es[i], tid) && tid in wanted :: tid in found
        invariant forall tid: nat | tid in found :: HasRow(e, tid)
      {
        assert WellKeyed(es[n], table, bits);
        var more := Search(es[n], passes, table, bits, wanted);
        found := found + more;
      }
  }

  // ----- Keys of pages -----

  ghost predicate AllWellKeyed(es: seq<Entry>, table: Table, bits: nat) {
    forall i: nat | i < |es| :: WellKeyed(es[i], table, bits)
  }

  /** Some entry of the list has bit `i` in its key. */
  ghost predicate AnyEntryBit(es: seq<Entry>, i: nat) { exists j: nat :: j < |es| && Bit(es[j].key, i) }

  /** `k` has the bits of the entries' keys and no further bits. */
  ghost predicate UnionOf(k: Key, es: seq<Entry>, bits: nat) {
    IsKey(k, bits) && forall i: nat | i < bits :: Bit(k, i) <==> AnyEntryBit(es, i)
  }

  /** `k` has the bits of both keys and no further bits. */
  ghost predicate JoinOf(k: Key, a: Key, b: Key, bits: nat) {
    IsKey(k, bits) && forall i: nat | i < bits :: Bit(k, i) <==> Bit(a, i) || Bit(b, i)
  }

  lemma UnionIsWellKeyed(k: Key, es: seq<Entry>, table: Table, bits: nat)
    requires UnionOf(k, es, bits) && AllWellKeyed(es, table, bits)
    ensures WellKeyed(Entry(k, Page(es)), table, bits)
  {
    forall tid: nat | HasRow(Entry(k, Page(es)), tid) ensures CoversRow(k, table, bits, tid) {
      var j: nat :| j < |es| && HasRow(es[j], tid);
      KeyCoversRows(es[j], table, bits, tid);
      forall h | h in table[tid] ensures Bit(k, h) { assert Bit(es[j].key, h); }
    }
  }

  lemma JoinCovers(k: Key, a: Key, b: Key, table: Table, bits: nat, tid: nat)
    requires JoinOf(k, a, b, bits) && (CoversRow(a, table, bits, tid) || CoversRow(b, table, bits, tid))
    ensures CoversRow(k, table, bits, tid)
  {
  }

  method KeysOf(es: seq<Entry>, bits: nat, ghost table: Table) returns (ks: seq<Key>)
    requires AllWellKeyed(es, table, bits)
    ensures |ks| == |es| && AllKeys(ks, bits) && forall i: nat | i < |es| :: ks[i] == es[i].key
  {
    ks := [];
    for n := 0 to |es|
      invariant |ks| == n && AllKeys(ks, bits) && forall i: nat | i < n :: ks[i] == es[i].key
    {
      assert WellKeyed(es[n], table, bits);
      ks := ks + [es[n].key];
    }
  }

  /** The key for a page. */
  method PageKey(es: seq<Entry>, bits: nat, ghost table: Table) returns (k: Key)
    requires AllWellKeyed(es, table, bits)
    ensures UnionOf(k, es, bits)
  {
    var ks := KeysOf(es, bits, table);
    var u := Union(ks, bits);
    k := CompressInner(u, bits);
    forall i: nat | i < bits ensures Bit(k, i) <==> AnyEntryBit(es, i) {
      assert Bit(u, i) <==> SomeHas(ks, |ks|, i);
      if AnyEntryBit(es, i) {
        var j: nat :| j < |es| && Bit(es[j].key, i);
        assert Bit(ks[j], i);
      }
    }
  }

  /** A key that takes in another. */
  method Widen(k: Key, more: Key, bits: nat) returns (r: Key)
    requires IsKey(k, bits) && IsKey(more, bits)
    ensures JoinOf(r, k, more, bits)
  {
    var ks := [k, more];
    var u := Union(ks, bits);
    r := CompressInner(u, bits);
    forall i: nat | i < bits ensures Bit(r, i) <==> Bit(k, i) || Bit(more, i) {
      assert Bit(u, i) <==> SomeHas(ks, |ks|, i);
      SomeHasMore(ks, 1, i);
      SomeHasMore(ks, 0, i);
    }
  }

  // ----- Splits -----

  /** Two pages with all entries of a page between them, each with its key. */
  ghost predicate SplitOf(es: seq<Entry>, l: Entry, r: Entry, bits: nat) {
    && l.child.Page? && r.child.Page? && |l.child.entries| > 0 && |r.child.entries| > 0
    && multiset(l.child.entries) + multiset(r.child.entries) == multiset(es)
    && UnionOf(l.key, l.child.entries, bits) && UnionOf(r.key, r.child.entries, bits)
  }

  function EntryAt(es: seq<Entry>): nat --> Entry { (j: nat) requires j < |es| => es[j] }

  ghost predicate InPage(places: seq<nat>, n: nat) { forall i: nat | i < |places| :: places[i] < n }

  function Gathered(es: seq<Entry>, places: seq<nat>): (side: seq<Entry>)
    requires InPage(places, |es|)
    ensures |side| == |places|
    ensures forall i: nat | i < |side| :: side[i] == es[places[i]]
    ensures Defined(EntryAt(es), places) && side == Map(EntryAt(es), places)
  {
    Map(EntryAt(es), places)
  }

  /** The bits at the gathered places are the bits of the gathered entries. */
  lemma {:induction false} SideKeyed(es: seq<Entry>, ks: seq<Key>, places: seq<nat>, k: Key, bits: nat)
    requires |ks| == |es| && (forall i: nat | i < |es| :: ks[i] == es[i].key) && InPage(places, |es|)
    requires IsKey(k, bits) && forall i: nat | i < bits :: Bit(k, i) <==> AnyBit(ks, multiset(places), i)
    ensures UnionOf(k, Gathered(es, places), bits)
  {
    var side := Gathered(es, places);
    forall i: nat | i < bits ensures AnyBit(ks, multiset(places), i) <==> AnyEntryBit(side, i) {
      if AnyEntryBit(side, i) {
        var n: nat :| n < |side| && Bit(side[n].key, i);
        assert places[n] in multiset(places) && Bit(ks[places[n]], i);
      }
      if AnyBit(ks, multiset(places), i) {
        var j: nat :| j < |ks| && j in multiset(places) && Bit(ks[j], i);
        var n: nat :| n < |places| && places[n] == j;
        assert Bit(side[n].key, i);
      }
    }
  }

  /** Places that take each number below `|es|` once gather all entries. */
  lemma {:induction false} GatheredAll(es: seq<Entry>, left: seq<nat>, right: seq<nat>)
    requires InPage(left, |es|) && InPage(right, |es|)
    requires multiset(left) + multiset(right) == Upto(|es|)
    ensures multiset(Gathered(es, left)) + multiset(Gathered(es, right)) == multiset(es)
  {
    var f, all := EntryAt(es), Counting(|es|);
    CountingIsUpto(|es|);
    assert multiset(left + right) == multiset(all);
    MapPermuted(f, left + right, all);
    assert Map(f, all) == es;
    assert Map(f, left + right) == Gathered(es, left) + Gathered(es, right);
  }

  function Counting(n: nat): (s: seq<nat>)
    ensures |s| == n && forall j | 0 <= j < n :: s[j] == j
  {
    if n == 0 then [] else Counting(n - 1) + [n - 1]
  }

  lemma {:induction false} CountingIsUpto(n: nat)
    ensures multiset(Counting(n)) == Upto(n)
  {
    if n > 0 { CountingIsUpto(n - 1); }
  }

  /** Each place below `n` once: the places are in range. */
  lemma {:induction false} PlacesInRange(left: seq<nat>, right: seq<nat>, n: nat)
    requires forall j: nat :: (multiset(left) + multiset(right))[j] == if j < n then 1 else 0
    ensures InPage(left, n) && InPage(right, n)
    ensures multiset(left) + multiset(right) == Upto(n)
  {
    forall i: nat | i < |left| ensures left[i] < n { assert left[i] in multiset(left) + multiset(right); }
    forall i: nat | i < |right| ensures right[i] < n { assert right[i] in multiset(left) + multiset(right); }
    forall j: nat ensures Upto(n)[j] == if j < n then 1 else 0 { UptoCounts(n, j); }
  }

  /** A page is split. */
  method SplitPage(es: seq<Entry>, bits: nat, wish: (nat, nat) -> real, ghost table: Table)
    returns (l: Entry, r: Entry)
    requires |es| >= 2 && AllWellKeyed(es, table, bits)
    ensures SplitOf(es, l, r, bits)
  {
    var ks := KeysOf(es, bits, table);
    var left, right, lkey, rkey := PickSplit(ks, bits, wish);
    PlacesInRange(left, right, |es|);
    SideKeyed(es, ks, left, lkey, bits);
    SideKeyed(es, ks, right, rkey, bits);
    GatheredAll(es, left, right);
    l, r := Entry(lkey, Page(Gathered(es, left))), Entry(rkey, Page(Gathered(es, right)));
  }
}
