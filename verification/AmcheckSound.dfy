/** A level passes the check exactly if its links and its keys are as they should be: there are no false alarms. */
module AmcheckSound {
  import opened AmcheckPages
  import opened AmcheckLevels
  import opened AmcheckOrder

  // ----- Pages -----

  /** Keys are at most the high key, if there is one. */
  ghost predicate HighKeyHolds(p: Page) { !Rightmost(p) ==> forall x | x in AllKeys(p) :: x <= p.items[0].key }

  /** The keys of the child are at least the key of the downlink. */
  ghost predicate DownlinkHolds(index: Index, item: Item) {
    && item.down in index
    && var child := index[item.down];
    && (child.deleted || (child.leaf <==> child.level == 0))
    && forall x | x in AllKeys(child) :: item.key <= x
  }

  ghost predicate DownlinksHold(index: Index, p: Page) {
    !p.leaf ==> forall i: nat | IsReal(p, i) :: DownlinkHolds(index, p.items[i])
  }

  ghost predicate PageSound(index: Index, p: Page) {
    NonDecreasing(AllKeys(p)) && HighKeyHolds(p) && DownlinksHold(index, p)
  }

  lemma {:induction false} KeyAt(p: Page, i: nat)
    requires IsReal(p, i)
    ensures p.items[i].key in AllKeys(p) && AllKeys(p)[i - FirstReal(p)] == p.items[i].key
  {
    assert AllKeys(p)[i - FirstReal(p)] == p.items[i].key;
  }

  lemma {:induction false} KeyFrom(p: Page, x: int) returns (i: nat)
    requires x in AllKeys(p)
    ensures IsReal(p, i) && p.items[i].key == x
  {
    var k :| 0 <= k < |AllKeys(p)| && AllKeys(p)[k] == x;
    i := FirstReal(p) + k;
  }

  lemma {:induction false} BoundsIff(index: Index, item: Item)
    ensures Bounds(index, item.down, item.key) <==> DownlinkHolds(index, item)
  {
    if Readable(index, item.down) {
      var q := index[item.down];
      if Bounds(index, item.down, item.key) {
        forall x | x in AllKeys(q) ensures item.key <= x {
          var i := KeyFrom(q, x);
          assert AtLeast(q, i, item.key);
        }
      }
      if DownlinkHolds(index, item) {
        forall i: nat | IsReal(q, i) ensures AtLeast(q, i, item.key) { KeyAt(q, i); }
      }
    }
  }

  lemma {:induction false} ItemsAreSound(index: Index, p: Page)
    requires forall i: nat | IsReal(p, i) :: ItemOk(index, p, i)
    ensures PageSound(index, p)
  {
    var ks := AllKeys(p);
    forall i: nat | 0 < i < |ks| ensures Rises(ks, i) {
      assert ItemOk(index, p, FirstReal(p) + i - 1);
    }
    forall x | !Rightmost(p) && x in ks ensures x <= p.items[0].key {
      var i := KeyFrom(p, x);
      assert ItemOk(index, p, i);
    }
    forall i: nat | !p.leaf && IsReal(p, i) ensures DownlinkHolds(index, p.items[i]) {
      assert ItemOk(index, p, i);
      BoundsIff(index, p.items[i]);
    }
  }

  lemma {:induction false} SoundItem(index: Index, p: Page, i: nat)
    requires PageSound(index, p) && IsReal(p, i)
    ensures ItemOk(index, p, i)
  {
    KeyAt(p, i);
    if i + 1 < |p.items| {
      KeyAt(p, i + 1);
      assert Rises(AllKeys(p), i + 1 - FirstReal(p));
    }
    if !p.leaf {
      assert DownlinkHolds(index, p.items[i]);
      BoundsIff(index, p.items[i]);
    }
  }

  // ----- Levels -----

  /** Pages in use next to each other but for pages that are not. */
  ghost predicate NextInUse(index: Index, trace: seq<nat>, j: nat, m: nat) {
    j < m && InUse(index, trace, j) && InUse(index, trace, m) && forall k: nat | j < k < m :: !InUse(index, trace, k)
  }

  /** Every page is sound, and the last key of each is at most the first key of the next in use. */
  ghost predicate KeysSound(index: Index, trace: seq<nat>) {
    && (forall k: nat | InUse(index, trace, k) :: PageSound(index, index[trace[k]]))
    && forall j: nat, m: nat | NextInUse(index, trace, j, m) && Filled(index, trace, j) && Filled(index, trace, m) ::
         Meets(index, trace, j, m)
  }

  /** A page in use that is not rightmost is followed by another one. */
  lemma {:induction false} FindNext(index: Index, at: Level, trace: seq<nat>, j: nat, k: nat) returns (m: nat)
    requires Linked(index, at, trace) && j < k < |trace| && InUse(index, trace, j)
    requires forall l: nat | j < l < k :: !InUse(index, trace, l)
    ensures m < |trace| && NextInUse(index, trace, j, m)
    decreases |trace| - k
  {
    assert LinkOk(index, at, trace, k);
    if InUse(index, trace, k) {
      m := k;
    } else {
      if k + 1 < |trace| { assert LinkOk(index, at, trace, k + 1); }
      m := FindNext(index, at, trace, j, k + 1);
    }
  }

  lemma {:induction false} NotLast(index: Index, at: Level, trace: seq<nat>, j: nat)
    requires Linked(index, at, trace) && InUse(index, trace, j) && !Rightmost(index[trace[j]])
    ensures j + 1 < |trace| && trace[j + 1] == index[trace[j]].next
  {
    if j + 1 < |trace| { assert LinkOk(index, at, trace, j + 1); }
  }

  lemma {:induction false} LastIsOk(index: Index, at: Level, trace: seq<nat>, j: nat)
    requires Linked(index, at, trace) && KeysSound(index, trace) && Filled(index, trace, j)
    ensures LastOk(index, index[trace[j]])
  {
    var p := index[trace[j]];
    if Rightmost(p) {
      assert BoundIs(index, p, NoBound) && Respects(p, NoBound);
    } else {
      NotLast(index, at, trace, j);
      var m := FindNext(index, at, trace, j, j + 1);
      SearchAgrees(index, at, trace, j + 1, m);
      var q := index[trace[m]];
      assert BoundAt(index, p.next, m - j) == FirstBound(q);
      assert BoundIs(index, p, FirstBound(q));
      assert Filled(index, trace, m) ==> Meets(index, trace, j, m);
      assert Respects(p, FirstBound(q));
    }
  }

  lemma {:induction false} SoundPasses(index: Index, at: Level, trace: seq<nat>)
    requires Linked(index, at, trace) && KeysSound(index, trace)
    ensures LevelOk(index, at, trace)
  {
    forall k: nat | k < |trace| ensures StepOk(index, at, trace, k) {
      assert LinkOk(index, at, trace, k);
      if InUse(index, trace, k) {
        var p := index[trace[k]];
        forall i: nat | IsReal(p, i) ensures ItemOk(index, p, i) { SoundItem(index, p, i); }
        if RealCount(p) > 0 { LastIsOk(index, at, trace, k); }
      }
    }
    assert LinkOk(index, at, trace, 0);
  }

  /** A walk along a level passes exactly if its links are right and its keys are in order. */
  lemma {:induction false} PassesIff(index: Index, at: Level, trace: seq<nat>)
    ensures LevelOk(index, at, trace) <==> Linked(index, at, trace) && KeysSound(index, trace)
  {
    if LevelOk(index, at, trace) {
      PassedIsLinked(index, at, trace);
      forall k: nat | InUse(index, trace, k) ensures PageSound(index, index[trace[k]]) {
        assert StepOk(index, at, trace, k);
        ItemsAreSound(index, index[trace[k]]);
      }
      forall j: nat, m: nat | NextInUse(index, trace, j, m) && Filled(index, trace, j) && Filled(index, trace, m)
        ensures Meets(index, trace, j, m)
      {
        AcrossPages(index, at, trace, j, m);
      }
    } else if Linked(index, at, trace) && KeysSound(index, trace) {
      SoundPasses(index, at, trace);
    }
  }

  // ----- No false alarms -----

  /** Every page keeps to its high key, and every downlink bounds its child. */
  ghost predicate BoundsHold(index: Index, trace: seq<nat>) {
    forall k: nat | InUse(index, trace, k) ::
      HighKeyHolds(index[trace[k]]) && DownlinksHold(index, index[trace[k]])
  }

  /** The keys of a page in use are part of the keys of the level. */
  lemma {:induction false} PagePart(index: Index, trace: seq<nat>, k: nat)
    requires NonDecreasing(KeysAlong(index, trace, |trace|)) && InUse(index, trace, k)
    ensures NonDecreasing(AllKeys(index[trace[k]]))
  {
    var all, ks, n := KeysAlong(index, trace, |trace|), AllKeys(index[trace[k]]), |KeysAlong(index, trace, k)|;
    KeysPrefix(index, trace, k + 1, |trace|);
    assert KeysAlong(index, trace, k + 1) == KeysAlong(index, trace, k) + ks;
    forall i: nat | 0 < i < |ks| ensures Rises(ks, i) {
      assert all[n + i] == ks[i] && all[n + i - 1] == ks[i - 1];
      assert Rises(all, n + i);
    }
  }

  /** A level with the right links, bounds that hold and nondecreasing keys passes, duplicates included. */
  lemma {:induction false} OrderedPasses(index: Index, at: Level, trace: seq<nat>)
    requires Linked(index, at, trace) && BoundsHold(index, trace) && NonDecreasing(KeysAlong(index, trace, |trace|))
    ensures LevelOk(index, at, trace)
  {
    forall k: nat | InUse(index, trace, k) ensures PageSound(index, index[trace[k]]) { PagePart(index, trace, k); }
    forall j: nat, m: nat | NextInUse(index, trace, j, m) && Filled(index, trace, j) && Filled(index, trace, m)
      ensures Meets(index, trace, j, m)
    {
      assert forall k: nat | j < k < m :: !Filled(index, trace, k);
      OrderMeets(index, trace, j, m);
    }
    SoundPasses(index, at, trace);
  }

  /** The level that is `d` below the top and begins with the first block of its walk. */
  function Expected(top: Level, traces: seq<seq<nat>>, d: nat): Level
    requires d < |traces| && d <= top.level && traces[d] != []
  {
    Level(top.level - d, traces[d][0], d == 0 && top.trueRoot)
  }

  /** Level `d` below the top is as it should be. */
  ghost predicate SoundAt(index: Index, top: Level, traces: seq<seq<nat>>, d: nat)
    requires d < |traces|
  {
    && d <= top.level && traces[d] != [] && Linked(index, Expected(top, traces, d), traces[d])
    && BoundsHold(index, traces[d]) && NonDecreasing(KeysAlong(index, traces[d], |traces[d]|))
  }

  /** The first item behind the high key of the first page leads to the first page of the next level. */
  predicate LeadsDown(index: Index, traces: seq<seq<nat>>, d: nat)
    requires 0 < d < |traces|
  {
    && traces[d] != [] && traces[d - 1] != [] && traces[d - 1][0] in index
    && var p := index[traces[d - 1][0]];
    && var first := if p.next == 0 then 0 else 1;
    && first < |p.items| && p.items[first].down == traces[d][0]
  }

  /** An index that is sound from the top down to the leaves. */
  ghost predicate SoundTree(index: Index, top: Level, traces: seq<seq<nat>>) {
    && |traces| == top.level + 1 && (forall d: nat | d < |traces| :: SoundAt(index, top, traces, d))
    && traces[0] != [] && traces[0][0] == top.leftmost
    && forall d: nat | 0 < d < |traces| :: LeadsDown(index, traces, d)
  }

  lemma {:induction false} LevelsAreExpected(index: Index, top: Level, traces: seq<seq<nat>>, d: nat)
    requires SoundTree(index, top, traces) && d < |traces|
    ensures SoundAt(index, top, traces, d) && LevelAt(index, top, d) == Expected(top, traces, d)
  {
    assert SoundAt(index, top, traces, d);
    if d > 0 {
      LevelsAreExpected(index, top, traces, d - 1);
      assert LeadsDown(index, traces, d);
      assert LinkOk(index, Expected(top, traces, d - 1), traces[d - 1], 0);
    }
  }

  /** So no sound index is reported as corrupt: its levels pass one after the other, down to the leaves. */
  lemma {:induction false} SoundTreePasses(index: Index, top: Level, traces: seq<seq<nat>>)
    requires SoundTree(index, top, traces)
    ensures TreeOk(index, top, traces)
  {
    forall d: nat | d < |traces| ensures StageOk(index, top, traces, d) {
      LevelsAreExpected(index, top, traces, d);
      assert LinkOk(index, Expected(top, traces, d), traces[d], 0);
      OrderedPasses(index, LevelAt(index, top, d), traces[d]);
    }
  }
}
