/**
 * Pages of a B-tree index, and what the verifier of `amcheck` asks of one page, in the
 * mode that holds a lock on the whole index.
 */
module AmcheckPages {
  import opened Finite

  /** No block; block 0 is the metapage. */
  const P_NONE: nat := 0

  /** Keys stand for their rank in the total preorder of `_bt_compare`. */
  datatype Item = Item(key: int, down: nat)

  /** All line items in order; a page that is not rightmost has its high key first. */
  datatype Page = Page(prev: nat, next: nat, level: nat, leaf: bool, root: bool,
                       deleted: bool, halfDead: bool, items: seq<Item>)

  type Index = map<nat, Page>

  predicate Ignorable(p: Page) { p.deleted || p.halfDead }

  predicate Rightmost(p: Page) { p.next == P_NONE }

  predicate Leftmost(p: Page) { p.prev == P_NONE }

  /** Place of the first item behind the high key. */
  function FirstData(p: Page): nat { if Rightmost(p) then 0 else 1 }

  /** Internal pages begin with an item that stands for minus infinity. */
  predicate IsMinusInfinity(p: Page, i: nat) { !p.leaf && i == FirstData(p) }

  /** Place of the first real item. */
  function FirstReal(p: Page): nat { if p.leaf then FirstData(p) else FirstData(p) + 1 }

  function RealCount(p: Page): nat { if FirstReal(p) <= |p.items| then |p.items| - FirstReal(p) else 0 }

  predicate IsReal(p: Page, i: nat) { FirstReal(p) <= i < |p.items| }

  // ----- Reading -----

  /** The checks made when any page is read: leaf pages, and only they, are on level 0. */
  predicate Readable(index: Index, b: nat) {
    b in index && (index[b].deleted || (index[b].leaf <==> index[b].level == 0))
  }

  /** The pages on disk are pages: an internal page that is in use has an item behind its high key. */
  ghost predicate Physical(index: Index) {
    forall b | b in index :: !Ignorable(index[b]) && !index[b].leaf ==> FirstData(index[b]) < |index[b].items|
  }

  // ----- The page to the right -----

  /** Outcome of the search for the page to the right. */
  datatype Search = Found(block: nat) | Broken | TooLong

  /** Follow right links over ignorable pages, for at most `n` pages. */
  function NextLive(index: Index, b: nat, n: nat): Search
    decreases n
  {
    if n == 0 then TooLong
    else if !Readable(index, b) then Broken
    else if !Ignorable(index[b]) || Rightmost(index[b]) then Found(b)
    else NextLive(index, index[b].next, n - 1)
  }

  /** An answer stays the same however long one is willing to search. */
  lemma {:induction false} NextLiveStable(index: Index, b: nat, m: nat, n: nat)
    requires m <= n && NextLive(index, b, m) != TooLong
    ensures NextLive(index, b, n) == NextLive(index, b, m)
    decreases n
  {
    if Readable(index, b) && Ignorable(index[b]) && !Rightmost(index[b]) {
      NextLiveStable(index, index[b].next, m - 1, n - 1);
    }
  }

  /** The block that the search comes to after `k` pages. */
  function Hop(index: Index, b: nat, k: nat): nat
    requires NextLive(index, b, k) == TooLong
    decreases k
  {
    if k == 0 then b else Hop(index, index[b].next, k - 1)
  }

  lemma {:induction false} HopOn(index: Index, b: nat, k: nat, n: nat)
    requires k <= n && NextLive(index, b, k) == TooLong
    ensures NextLive(index, b, n) == NextLive(index, Hop(index, b, k), n - k)
    decreases k
  {
    if k > 0 { HopOn(index, index[b].next, k - 1, n - 1); }
  }

  lemma {:induction false} HopFurther(index: Index, b: nat, k: nat, l: nat)
    requires NextLive(index, b, k + l) == TooLong
    ensures NextLive(index, b, k) == TooLong && NextLive(index, Hop(index, b, k), l) == TooLong
    ensures Hop(index, Hop(index, b, k), l) == Hop(index, b, k + l)
    decreases k
  {
    if k > 0 { HopFurther(index, index[b].next, k - 1, l); }
  }

  lemma {:induction false} HopMore(index: Index, b: nat, k: nat)
    requires NextLive(index, b, k) == TooLong
    ensures var c := Hop(index, b, k);
            Readable(index, c) && Ignorable(index[c]) && !Rightmost(index[c]) ==>
              NextLive(index, b, k + 1) == TooLong && Hop(index, b, k + 1) == index[c].next
    decreases k
  {
    HopOn(index, b, k, k + 1);
    if k > 0 { HopMore(index, index[b].next, k - 1); }
  }

  lemma {:induction false} ShorterIsTooLong(index: Index, b: nat, m: nat, n: nat)
    requires m <= n && NextLive(index, b, n) == TooLong
    ensures NextLive(index, b, m) == TooLong
  {
    HopFurther(index, b, m, n - m);
  }

  /** A search that comes back to a block never ends. */
  lemma {:induction false} CircleIsTooLong(index: Index, b: nat, k: nat, n: nat)
    requires k > 0 && NextLive(index, b, k) == TooLong && Hop(index, b, k) == b
    ensures NextLive(index, b, n) == TooLong
    decreases n
  {
    if n <= k {
      ShorterIsTooLong(index, b, n, k);
    } else {
      HopOn(index, b, k, n);
      CircleIsTooLong(index, b, k, n - k);
    }
  }

  /** A search over more pages than there are never ends. */
  lemma {:induction false} TooLongForever(index: Index, b: nat, n: nat)
    requires NextLive(index, b, |index| + 1) == TooLong
    ensures NextLive(index, b, n) == TooLong
  {
    var all := |index| + 1;
    var s := seq(all, k requires 0 <= k < all => (ShorterIsTooLong(index, b, k, all); Hop(index, b, k)));
    forall k: nat | k < all ensures s[k] in index.Keys {
      HopFurther(index, b, k, all - k);
    }
    var i, j := Repeats(s, index.Keys);
    ShorterIsTooLong(index, b, j, all);
    HopFurther(index, b, i, j - i);
    if n <= i {
      ShorterIsTooLong(index, b, n, i);
    } else {
      HopOn(index, b, i, n);
      CircleIsTooLong(index, Hop(index, b, i), j - i, n - i);
    }
  }

  /** The key that bounds the last item of a page from above, if the page to the right has one. */
  datatype Bound = NoBound | Above(key: int)

  function FirstBound(p: Page): Bound {
    if FirstReal(p) < |p.items| then Above(p.items[FirstReal(p)].key) else NoBound
  }

  /** The bound is known to be `r` once the search for the page to the right has ended. */
  ghost predicate BoundIs(index: Index, p: Page, r: Bound) {
    if Rightmost(p) then r == NoBound
    else exists n: nat :: NextLive(index, p.next, n).Found? && r == BoundAt(index, p.next, n)
  }

  function BoundAt(index: Index, b: nat, n: nat): Bound {
    var f := NextLive(index, b, n);
    if f.Found? && f.block in index then FirstBound(index[f.block]) else NoBound
  }

  lemma {:induction false} BoundUnique(index: Index, p: Page, r: Bound, s: Bound)
    requires BoundIs(index, p, r) && BoundIs(index, p, s)
    ensures r == s
  {
    if !Rightmost(p) {
      var m: nat :| NextLive(index, p.next, m).Found? && r == BoundAt(index, p.next, m);
      var n: nat :| NextLive(index, p.next, n).Found? && s == BoundAt(index, p.next, n);
      if m <= n { NextLiveStable(index, p.next, m, n); } else { NextLiveStable(index, p.next, n, m); }
    }
  }

  // ----- What is asked of a page -----

  /** An item is at most the high key and at most the item behind it. */
  predicate InPlace(p: Page, i: nat)
    requires i < |p.items|
  {
    && UnderHighKey(p, i)
    && (i + 1 < |p.items| ==> p.items[i].key <= p.items[i + 1].key)
  }

  /** The child page can be read and its real items are at least `key`. */
  ghost predicate Bounds(index: Index, child: nat, key: int) {
    Readable(index, child) && forall i: nat | IsReal(index[child], i) :: AtLeast(index[child], i, key)
  }

  predicate AtLeast(p: Page, i: nat, key: int)
    requires i < |p.items|
  {
    key <= p.items[i].key
  }

  ghost predicate ItemOk(index: Index, p: Page, i: nat)
    requires i < |p.items|
  {
    InPlace(p, i) && (!p.leaf ==> Bounds(index, p.items[i].down, p.items[i].key))
  }

  /** The last item is at most the first real item to the right, if there is one. */
  ghost predicate LastOk(index: Index, p: Page)
    requires RealCount(p) > 0
  {
    exists r :: BoundIs(index, p, r) && Respects(p, r)
  }

  predicate Respects(p: Page, r: Bound)
    requires RealCount(p) > 0
  {
    r.Above? ==> p.items[|p.items| - 1].key <= r.key
  }

  ghost predicate PageOk(index: Index, p: Page) {
    && (forall i: nat | IsReal(p, i) :: ItemOk(index, p, i))
    && (RealCount(p) > 0 ==> LastOk(index, p))
  }

  predicate UnderHighKey(p: Page, i: nat)
    requires i < |p.items|
  {
    !Rightmost(p) ==> p.items[i].key <= p.items[0].key
  }

  /** The check of a page gets as far as to look at the page to the right. */
  ghost predicate LooksRight(index: Index, p: Page) {
    && !Rightmost(p) && RealCount(p) > 0 && UnderHighKey(p, |p.items| - 1)
    && forall i: nat | IsReal(p, i) && i + 1 < |p.items| :: ItemOk(index, p, i)
  }

  /** The items, from `i` on, that the check of a page comes to: all up to the first that fails. */
  ghost function Seen(index: Index, p: Page, i: nat): nat
    decreases |p.items| - i
  {
    if i >= |p.items| then 0
    else if IsReal(p, i) && i + 1 < |p.items| && !ItemOk(index, p, i) then 1
    else 1 + Seen(index, p, i + 1)
  }

  lemma {:induction false} SeenBound(index: Index, p: Page, i: nat)
    ensures Seen(index, p, i) <= if i < |p.items| then |p.items| - i else 0
    decreases |p.items| - i
  {
    if i < |p.items| { SeenBound(index, p, i + 1); }
  }

  /** The user cancels on one of the items, or during the search for the page to the right. */
  ghost predicate OutOfPatience(index: Index, p: Page, patience: nat) {
    var seen := Seen(index, p, FirstData(p));
    patience < seen || (LooksRight(index, p) && NextLive(index, p.next, patience - seen) == TooLong)
  }

  // ----- The checks -----

  datatype Verdict = Ok | Corrupt | Cancelled

  /** The state of a check. `patience` is the number of interrupt checks until the user cancels. */
  class CheckState {
    const index: Index
    var patience: nat
    var targetBlock: nat
    var target: Page

    constructor (index: Index, patience: nat)
      ensures this.index == index && this.patience == patience
    {
      this.index, this.patience := index, patience;
      targetBlock := P_NONE;
      target := Page(P_NONE, P_NONE, 0, true, false, false, false, []);
    }

    /** `bt_right_page_check_scankey`: the first real item of the next page that is not ignorable. */
    method RightPageBound() returns (v: Verdict, r: Bound)
      modifies this`patience
      ensures patience <= old(patience)
      ensures v == Ok ==> BoundIs(index, target, r)
      ensures v == Corrupt ==> forall s :: !BoundIs(index, target, s)
      ensures v == Cancelled <==> !Rightmost(target) && NextLive(index, target.next, old(patience)) == TooLong
      ensures v != Cancelled ==> patience >= old(patience) - |index| - 1
    {
      if Rightmost(target) { return Ok, NoBound; }
      var b := target.next;
      ghost var used: nat := 0;
      while true
        invariant patience == old(patience) - used
        invariant NextLive(index, target.next, used) == TooLong && b == Hop(index, target.next, used)
        decreases patience
      {
        HopOn(index, target.next, used, old(patience));
        if patience == 0 { return Cancelled, NoBound; }
        if used > |index| {
          ShorterIsTooLong(index, target.next, |index| + 1, used);
          TooLongForever(index, target.next, old(patience));
        }
        HopMore(index, target.next, used);
        patience := patience - 1;
        if !Readable(index, b) {
          NoBoundIfBroken(index, target, old(patience));
          return Corrupt, NoBound;
        }
        if !Ignorable(index[b]) || Rightmost(index[b]) { break; }
        b := index[b].next;
        used := used + 1;
      }
      r := FirstBound(index[b]);
      assert r == BoundAt(index, target.next, old(patience));
      return Ok, r;
    }

    /** `bt_downlink_check`: the downlink's key is a lower bound for the child's items. */
    method DownlinkCheck(child: nat, key: int) returns (ok: bool)
      ensures ok <==> Bounds(index, child, key)
    {
      if !Readable(index, child) { return false; }
      var p := index[child];
      var i := FirstData(p);
      while i < |p.items|
        invariant FirstData(p) <= i
        invariant forall j: nat | IsReal(p, j) && j < i :: AtLeast(p, j, key)
      {
        if !IsMinusInfinity(p, i) && !AtLeast(p, i, key) {
          assert IsReal(p, i);
          return false;
        }
        i := i + 1;
      }
      return true;
    }

    /** The check of the last item of the target against the page to the right. */
    method LastItemCheck() returns (v: Verdict)
      requires RealCount(target) > 0
      modifies this`patience
      ensures patience <= old(patience)
      ensures v == Ok ==> LastOk(index, target)
      ensures v == Corrupt ==> !LastOk(index, target)
      ensures v == Cancelled <==> !Rightmost(target) && NextLive(index, target.next, old(patience)) == TooLong
      ensures v != Cancelled ==> patience >= old(patience) - |index| - 1
    {
      var r;
      v, r := RightPageBound();
      if v != Ok { return; }
      if !Respects(target, r) {
        forall s | BoundIs(index, target, s) ensures s == r { BoundUnique(index, target, r, s); }
        return Corrupt;
      }
    }

    /** The checks of one real item of the target, in their order; only the last looks to the right. */
    method ItemCheck(i: nat) returns (v: Verdict)
      requires IsReal(target, i)
      modifies this`patience
      ensures patience <= old(patience) && (i + 1 < |target.items| ==> patience == old(patience))
      ensures v == Ok ==> ItemOk(index, target, i) && (i + 1 == |target.items| ==> LastOk(index, target))
      ensures v == Corrupt ==> !ItemOk(index, target, i) || (i + 1 == |target.items| && !LastOk(index, target))
      ensures v == Cancelled <==>
                && i + 1 == |target.items| && UnderHighKey(target, i) && !Rightmost(target)
                && NextLive(index, target.next, old(patience)) == TooLong
      ensures v != Cancelled ==> patience >= old(patience) - |index| - 1
    {
      v := Ok;
      if !Rightmost(target) && target.items[i].key > target.items[0].key { return Corrupt; }
      if i + 1 < |target.items| {
        if target.items[i].key > target.items[i + 1].key { return Corrupt; }
      } else {
        v := LastItemCheck();
        if v != Ok { return; }
      }
      if !target.leaf {
        var ok := DownlinkCheck(target.items[i].down, target.items[i].key);
        if !ok { return Corrupt; }
      }
    }

    /** `bt_target_page_check`: a normal return means that the page is in order. */
    method TargetPageCheck() returns (v: Verdict)
      modifies this`patience
      ensures patience <= old(patience)
      ensures v == Ok ==> PageOk(index, target)
      ensures v == Corrupt ==> !PageOk(index, target)
      ensures v == Cancelled <==> OutOfPatience(index, target, old(patience))
      ensures v != Cancelled ==> patience >= old(patience) - |target.items| - |index| - 1
    {
      var i := FirstData(target);
      while i < |target.items|
        invariant FirstData(target) <= i && patience <= old(patience)
        invariant i <= |target.items| ==>
                    Seen(index, target, FirstData(target)) == i - FirstData(target) + Seen(index, target, i)
        invariant i < |target.items| ==> patience == old(patience) - (i - FirstData(target))
        invariant forall j: nat | IsReal(target, j) && j < i :: ItemOk(index, target, j)
        invariant i >= |target.items| && RealCount(target) > 0 ==> LastOk(index, target)
        invariant i >= |target.items| ==> !OutOfPatience(index, target, old(patience))
        invariant patience >= old(patience) - |target.items| - |index| - 1
      {
        if patience == 0 { return Cancelled; }
        patience := patience - 1;
        if !IsMinusInfinity(target, i) {
          assert IsReal(target, i);
          v := ItemCheck(i);
          if v != Ok { return; }
        }
        i := i + 1;
      }
      return Ok;
    }
  }

  lemma {:induction false} NoBoundIfBroken(index: Index, p: Page, n: nat)
    requires !Rightmost(p) && NextLive(index, p.next, n) == Broken
    ensures forall s :: !BoundIs(index, p, s)
  {
    forall m: nat | NextLive(index, p.next, m).Found? ensures false {
      if m <= n { NextLiveStable(index, p.next, m, n); } else { NextLiveStable(index, p.next, n, m); }
    }
  }
}
