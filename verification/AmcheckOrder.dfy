/** What a successful check guarantees: every level is visited, and its keys are in order. */
module AmcheckOrder {
  import opened AmcheckPages
  import opened AmcheckLevels

  // ----- Through all levels -----

  /** The level below a level, as its leftmost page says. */
  function Below(index: Index, at: Level): Level {
    if at.leftmost in index && !index[at.leftmost].leaf && Descends(index[at.leftmost], TryDescent(index[at.leftmost]))
    then TryDescent(index[at.leftmost]).to else at
  }

  function TryDescent(p: Page): Descent {
    if p.leaf then LeafDone
    else if FirstData(p) < |p.items| && p.level > 0 then DescentOf(p) else Down(Level(0, P_NONE, false))
  }

  function LevelAt(index: Index, top: Level, d: nat): Level {
    if d == 0 then top else Below(index, LevelAt(index, top, d - 1))
  }

  /** Level `d` below the top is where it should be and in order. */
  ghost predicate StageOk(index: Index, top: Level, traces: seq<seq<nat>>, d: nat)
    requires d < |traces|
  {
    var at := LevelAt(index, top, d);
    at.leftmost != P_NONE && at.level + d == top.level && LevelOk(index, at, traces[d])
  }

  /** Levels in order from the top; the descent ends at a downlink to no block, or at the leaves. */
  ghost predicate TreeOk(index: Index, top: Level, traces: seq<seq<nat>>) {
    && 0 < |traces| <= top.level + 1
    && (forall d: nat | d < |traces| :: StageOk(index, top, traces, d))
    && (|traces| <= top.level ==> LevelAt(index, top, |traces|).leftmost == P_NONE)
  }

  lemma {:induction false} OneLevelDown(index: Index, at: Level, trace: seq<nat>, down: Descent)
    requires LevelOk(index, at, trace) && Descends(index[trace[0]], down)
    ensures down == LeafDone <==> at.level == 0
    ensures down == LeafDone || (down == Down(Below(index, at)) && Below(index, at).level + 1 == at.level)
  {
    StepHolds(index, at, trace, 0);
    assert StepOk(index, at, trace, 0);
  }

  /** A descent goes as far as there are pages. */
  lemma {:induction false} GoesDown(index: Index, top: Level, ts: seq<seq<nat>>, d: nat)
    requires TreeOk(index, top, ts) && d <= top.level && forall k: nat | k <= d :: HasPages(index, top, k)
    ensures d < |ts| && LevelOk(index, LevelAt(index, top, d), ts[d])
  {
    assert |ts| <= d ==> HasPages(index, top, |ts|);
    assert StageOk(index, top, ts, d);
  }

  /** If the next level is not in order, there is no way down past it. */
  lemma {:induction false} StuckBelow(index: Index, top: Level, traces: seq<seq<nat>>)
    requires |traces| <= top.level && forall d: nat | d < |traces| :: StageOk(index, top, traces, d)
    requires HasPages(index, top, |traces|) && forall t :: !LevelOk(index, LevelAt(index, top, |traces|), t)
    ensures top.leftmost != P_NONE && forall ts :: !TreeOk(index, top, ts)
  {
    forall k: nat | k <= |traces| ensures HasPages(index, top, k) {
      if k < |traces| { assert StageOk(index, top, traces, k); }
    }
    assert HasPages(index, top, 0);
    forall ts ensures !TreeOk(index, top, ts) {
      if TreeOk(index, top, ts) { GoesDown(index, top, ts, |traces|); }
    }
  }

  predicate HasPages(index: Index, top: Level, d: nat) { LevelAt(index, top, d).leftmost != P_NONE }

  /** The leaves are reached exactly if no leftmost downlink leads to block 0. */
  lemma {:induction false} ReachesLeavesIff(index: Index, top: Level, traces: seq<seq<nat>>)
    requires TreeOk(index, top, traces)
    ensures |traces| == top.level + 1 <==> forall d: nat | d <= top.level :: HasPages(index, top, d)
  {
    if |traces| == top.level + 1 {
      forall d: nat | d <= top.level ensures HasPages(index, top, d) { assert StageOk(index, top, traces, d); }
    } else {
      assert !HasPages(index, top, |traces|);
    }
  }

  /** The check gets down to level `d` below the top. */
  ghost predicate GetsTo(index: Index, top: Level, d: nat) {
    && d <= top.level && HasPages(index, top, d)
    && forall k: nat | k < d :: HasPages(index, top, k) && Passes(index, LevelAt(index, top, k))
  }

  ghost predicate Passes(index: Index, at: Level) { exists t :: LevelOk(index, at, t) }

  /** The check gets to a level that has no end. */
  ghost predicate EndlessBelow(index: Index, top: Level) {
    exists d: nat :: GetsTo(index, top, d) && Endless(index, LevelAt(index, top, d))
  }

  /** A check that has come down through `traces`, and there to an end, is not endless. */
  lemma {:induction false} EndsAt(index: Index, top: Level, traces: seq<seq<nat>>)
    requires forall d: nat | d < |traces| :: StageOk(index, top, traces, d)
    requires |traces| <= top.level && HasPages(index, top, |traces|) ==>
               !Endless(index, LevelAt(index, top, |traces|)) && !Passes(index, LevelAt(index, top, |traces|))
    ensures !EndlessBelow(index, top)
  {
    forall d: nat | GetsTo(index, top, d) ensures !Endless(index, LevelAt(index, top, d)) {
      if d < |traces| {
        assert StageOk(index, top, traces, d);
        LevelEnds(index, LevelAt(index, top, d), traces[d]);
      }
    }
  }

  /** Where the check gets to is right below the levels that passed. */
  lemma {:induction false} GotTo(index: Index, top: Level, traces: seq<seq<nat>>)
    requires |traces| <= top.level && forall d: nat | d < |traces| :: StageOk(index, top, traces, d)
    requires HasPages(index, top, |traces|)
    ensures GetsTo(index, top, |traces|)
  {
    forall k: nat | k < |traces| ensures HasPages(index, top, k) && Passes(index, LevelAt(index, top, k)) {
      assert StageOk(index, top, traces, k);
    }
  }

  ghost predicate NoneIgnorable(index: Index) { forall b | b in index :: !Ignorable(index[b]) }

  /** Everything that right links lead to, and one more block. */
  ghost function Reachable(index: Index, b: nat): set<nat> {
    index.Keys + (set c | c in index :: index[c].next) + {b}
  }

  /** An index without ignorable pages has no level without an end. */
  lemma {:induction false} NoneIgnorableEnds(index: Index, top: Level)
    requires NoneIgnorable(index)
    ensures !EndlessBelow(index, top)
  {
    forall d: nat | GetsTo(index, top, d) ensures !Endless(index, LevelAt(index, top, d)) {
      var at := LevelAt(index, top, d);
      LiveChainEnds(index, at, Reachable(index, at.leftmost));
    }
  }

  /** The patience that is enough for `n` levels. */
  ghost function Budget(index: Index, n: nat): nat { if n == 0 then 0 else Budget(index, n - 1) + Enough(index) }

  /**
   * `bt_check_every_level`, from the root block and its level that the metapage names. If the
   * check gets to a level without an end, it is cancelled whatever the patience; otherwise a
   * patient user need not cancel it.
   */
  method CheckEveryLevel(st: CheckState, root: nat, level: nat) returns (v: Verdict, ghost traces: seq<seq<nat>>)
    requires Physical(st.index)
    modifies st
    ensures v == Ok && root != P_NONE ==> TreeOk(st.index, Level(level, root, true), traces)
    ensures v == Corrupt ==> root != P_NONE && forall ts :: !TreeOk(st.index, Level(level, root, true), ts)
    ensures EndlessBelow(st.index, Level(level, root, true)) ==> v == Cancelled
    ensures old(st.patience) >= Budget(st.index, level + 1) && v == Cancelled ==>
              EndlessBelow(st.index, Level(level, root, true))
  {
    ghost var top := Level(level, root, true);
    var current := Level(level, root, true);
    ghost var patient := st.patience >= Budget(st.index, level + 1);
    traces := [];
    while current.leftmost != P_NONE
      invariant current == LevelAt(st.index, top, |traces|) && current.level + |traces| == level
      invariant forall d: nat | d < |traces| :: StageOk(st.index, top, traces, d)
      invariant patient ==> st.patience >= Budget(st.index, current.level + 1)
      decreases current.level
    {
      var down;
      ghost var trace;
      v, down, trace := CheckLevel(st, current);
      if v == Cancelled {
        GotTo(st.index, top, traces);
        return;
      }
      if v == Corrupt {
        StuckBelow(st.index, top, traces);
        EndsAt(st.index, top, traces);
        return;
      }
      OneLevelDown(st.index, current, trace, down);
      StageMore(st.index, top, traces, trace);
      assert LevelAt(st.index, top, |traces| + 1) == Below(st.index, current);
      traces := traces + [trace];
      if down == NoPage { return Corrupt, traces; }
      if down == LeafDone {
        EndsAt(st.index, top, traces);
        return Ok, traces;
      }
      current := down.to;
    }
    EndsAt(st.index, top, traces);
    return Ok, traces;
  }

  lemma {:induction false} StageMore(index: Index, top: Level, traces: seq<seq<nat>>, trace: seq<nat>)
    requires forall d: nat | d < |traces| :: StageOk(index, top, traces, d)
    requires StageOk(index, top, traces + [trace], |traces|)
    ensures forall d: nat | d < |traces| + 1 :: StageOk(index, top, traces + [trace], d)
  {
    forall d: nat | d < |traces| ensures StageOk(index, top, traces + [trace], d) {
      assert StageOk(index, top, traces, d);
    }
  }

  /** A root whose only downlink leads to block 0 passes, though nothing below it is looked at. */
  lemma {:induction false} DescentCutShort(index: Index, n: nat, p: Page)
    requires n > 0 && p == Page(P_NONE, P_NONE, n, false, true, false, false, [Item(0, P_NONE)]) && index == map[1 := p]
    ensures Physical(index) && TreeOk(index, Level(n, 1, true), [[1]])
  {
    var top := Level(n, 1, true);
    assert RealCount(p) == 0 && forall i: nat :: !IsReal(p, i);
    assert PageOk(index, p);
    assert StepOk(index, top, [1], 0);
    assert LevelOk(index, top, [1]);
    assert StageOk(index, top, [[1]], 0);
    assert LevelAt(index, top, 1) == Below(index, top);
  }

  // ----- Keys in order -----

  predicate Rises(s: seq<int>, i: nat)
    requires 0 < i < |s|
  {
    s[i - 1] <= s[i]
  }

  ghost predicate NonDecreasing(s: seq<int>) { forall i: nat | 0 < i < |s| :: Rises(s, i) }

  lemma {:induction false} NonDecreasingJoin(s: seq<int>, t: seq<int>)
    requires NonDecreasing(s) && NonDecreasing(t) && (s == [] || t == [] || s[|s| - 1] <= t[0])
    ensures NonDecreasing(s + t)
  {
    forall i: nat | 0 < i < |s + t| ensures Rises(s + t, i) {
      if i < |s| { assert Rises(s, i); }
      if i > |s| { assert Rises(t, i - |s|); }
    }
  }

  /** The first `n` real keys of a page. */
  function PageKeys(p: Page, n: nat): (ks: seq<int>)
    requires n <= RealCount(p)
    ensures |ks| == n && forall i | 0 <= i < n :: ks[i] == p.items[FirstReal(p) + i].key
  {
    if n == 0 then [] else PageKeys(p, n - 1) + [p.items[FirstReal(p) + n - 1].key]
  }

  function AllKeys(p: Page): seq<int> { PageKeys(p, RealCount(p)) }

  lemma {:induction false} PageInOrder(index: Index, p: Page)
    requires PageOk(index, p)
    ensures NonDecreasing(AllKeys(p))
  {
    var ks := AllKeys(p);
    forall i: nat | 0 < i < |ks| ensures Rises(ks, i) {
      assert IsReal(p, FirstReal(p) + i - 1) && ItemOk(index, p, FirstReal(p) + i - 1);
    }
  }

  /** Real keys of the pages in use among the first `n` of a walk, in the order of the walk. */
  function KeysAlong(index: Index, trace: seq<nat>, n: nat): seq<int>
    requires n <= |trace|
  {
    if n == 0 then []
    else if trace[n - 1] in index && !Ignorable(index[trace[n - 1]])
    then KeysAlong(index, trace, n - 1) + AllKeys(index[trace[n - 1]])
    else KeysAlong(index, trace, n - 1)
  }

  predicate InUse(index: Index, trace: seq<nat>, k: nat) {
    k < |trace| && trace[k] in index && !Ignorable(index[trace[k]])
  }

  /** What the links and flags of a level should be; nothing is said of the items. */
  ghost predicate LinkOk(index: Index, at: Level, trace: seq<nat>, k: nat)
    requires k < |trace|
  {
    var b, left := trace[k], if k == 0 then 0 else trace[k - 1];
    && b in index && b == (if k == 0 then at.leftmost else if left in index then index[left].next else 0) != 0
    && var p := index[b];
    && (p.deleted || (p.leaf <==> p.level == 0)) && b != left && b != p.prev
    && if p.deleted || p.halfDead then p.next != 0 else p.prev == left && p.level == at.level
  }

  /** A walk that begins with the leftmost page, the root if it should be, and ends where there are no more pages. */
  ghost predicate Linked(index: Index, at: Level, trace: seq<nat>) {
    && trace != [] && (forall k: nat | k < |trace| :: LinkOk(index, at, trace, k))
    && trace[0] in index && trace[|trace| - 1] in index
    && var first, last := index[trace[0]], index[trace[|trace| - 1]];
    && !first.deleted && !first.halfDead && first.prev == 0 && (at.trueRoot ==> first.root)
    && last.next == 0
  }

  lemma {:induction false} PassedIsLinked(index: Index, at: Level, trace: seq<nat>)
    requires LevelOk(index, at, trace)
    ensures Linked(index, at, trace)
  {
    forall k: nat | k < |trace| ensures LinkOk(index, at, trace, k) { assert StepOk(index, at, trace, k); }
    assert LinkOk(index, at, trace, 0) && LinkOk(index, at, trace, |trace| - 1);
  }

  /** From block `j` the search for a page in use ends at block `m`, if it is the next in use. */
  lemma {:induction false} SearchAgrees(index: Index, at: Level, trace: seq<nat>, j: nat, m: nat)
    requires Linked(index, at, trace) && j <= m < |trace| && InUse(index, trace, m)
    requires forall k: nat | j <= k < m :: !InUse(index, trace, k)
    ensures NextLive(index, trace[j], m - j + 1) == Found(trace[m])
    decreases m - j
  {
    assert LinkOk(index, at, trace, j);
    if j < m {
      assert !InUse(index, trace, j) && LinkOk(index, at, trace, j + 1);
      SearchAgrees(index, at, trace, j + 1, m);
    }
  }

  /** The last key of a page in use is at most the first key of the next page in use. */
  lemma {:induction false} AcrossPages(index: Index, at: Level, trace: seq<nat>, j: nat, m: nat)
    requires LevelOk(index, at, trace) && j < m < |trace| && InUse(index, trace, j) && InUse(index, trace, m)
    requires forall k: nat | j < k < m :: !InUse(index, trace, k)
    requires RealCount(index[trace[j]]) > 0 && RealCount(index[trace[m]]) > 0
    ensures var p, q := index[trace[j]], index[trace[m]];
            p.items[|p.items| - 1].key <= q.items[FirstReal(q)].key
  {
    var p, q := index[trace[j]], index[trace[m]];
    assert StepOk(index, at, trace, j) && StepOk(index, at, trace, j + 1);
    PassedIsLinked(index, at, trace);
    SearchAgrees(index, at, trace, j + 1, m);
    assert BoundAt(index, p.next, m - j) == FirstBound(q);
    assert BoundIs(index, p, FirstBound(q));
    var r :| BoundIs(index, p, r) && Respects(p, r);
    BoundUnique(index, p, r, FirstBound(q));
  }

  // ----- Exactly when a level that passes has its keys in order -----

  /** A page in use with a real item. */
  predicate Filled(index: Index, trace: seq<nat>, k: nat) {
    InUse(index, trace, k) && RealCount(index[trace[k]]) > 0
  }

  /** Filled pages next to each other but for pages that are empty or not in use. */
  ghost predicate NextFilled(index: Index, trace: seq<nat>, j: nat, m: nat) {
    j < m && Filled(index, trace, j) && Filled(index, trace, m) && forall k: nat | j < k < m :: !Filled(index, trace, k)
  }

  /** Some page in use between two filled ones is empty. */
  ghost predicate EmptyBetween(index: Index, trace: seq<nat>, j: nat, m: nat) {
    NextFilled(index, trace, j, m) && exists k: nat :: j < k < m && InUse(index, trace, k)
  }

  /** The last key of one page is at most the first key of the other. */
  predicate Meets(index: Index, trace: seq<nat>, j: nat, m: nat)
    requires Filled(index, trace, j) && Filled(index, trace, m)
  {
    var p, q := index[trace[j]], index[trace[m]];
    p.items[|p.items| - 1].key <= q.items[FirstReal(q)].key
  }

  /** The check itself compares neighbours without an empty page between them. */
  lemma {:induction false} NeighboursMeet(index: Index, at: Level, trace: seq<nat>, j: nat, m: nat)
    requires LevelOk(index, at, trace) && NextFilled(index, trace, j, m) && !EmptyBetween(index, trace, j, m)
    ensures Meets(index, trace, j, m)
  {
    AcrossPages(index, at, trace, j, m);
  }

  /** The keys met so far are those up to the last filled page, if there is one. */
  lemma {:induction false} LastFilled(index: Index, trace: seq<nat>, n: nat) returns (j: nat)
    requires n <= |trace|
    ensures KeysAlong(index, trace, n) == [] ==> forall k: nat | k < n :: !Filled(index, trace, k)
    ensures var ks := KeysAlong(index, trace, n);
            ks != [] ==>
              && j < n && Filled(index, trace, j) && (forall k: nat | j < k < n :: !Filled(index, trace, k))
              && var p := index[trace[j]]; ks[|ks| - 1] == p.items[|p.items| - 1].key
  {
    j := 0;
    if n > 0 {
      if Filled(index, trace, n - 1) {
        j := n - 1;
      } else {
        j := LastFilled(index, trace, n - 1);
        assert KeysAlong(index, trace, n) == KeysAlong(index, trace, n - 1);
      }
    }
  }

  lemma {:induction false} InOrderSoFar(index: Index, at: Level, trace: seq<nat>, n: nat)
    requires LevelOk(index, at, trace) && n <= |trace|
    requires forall j: nat, m: nat | EmptyBetween(index, trace, j, m) :: Meets(index, trace, j, m)
    ensures NonDecreasing(KeysAlong(index, trace, n))
  {
    if n > 0 {
      InOrderSoFar(index, at, trace, n - 1);
      assert StepOk(index, at, trace, n - 1);
      if InUse(index, trace, n - 1) {
        var ks, q := KeysAlong(index, trace, n - 1), index[trace[n - 1]];
        PageInOrder(index, q);
        var j := LastFilled(index, trace, n - 1);
        if ks != [] && RealCount(q) > 0 {
          assert NextFilled(index, trace, j, n - 1);
          if !EmptyBetween(index, trace, j, n - 1) { NeighboursMeet(index, at, trace, j, n - 1); }
        }
        NonDecreasingJoin(ks, AllKeys(q));
      }
    }
  }

  /** The keys along a part of the walk are the first of the keys along all of it. */
  lemma {:induction false} KeysPrefix(index: Index, trace: seq<nat>, m: nat, n: nat)
    requires m <= n <= |trace|
    ensures KeysAlong(index, trace, m) <= KeysAlong(index, trace, n)
  {
    if m < n { KeysPrefix(index, trace, m, n - 1); }
  }

  lemma {:induction false} NoKeysBetween(index: Index, trace: seq<nat>, m: nat, n: nat)
    requires m <= n <= |trace| && forall k: nat | m <= k < n :: !Filled(index, trace, k)
    ensures KeysAlong(index, trace, m) == KeysAlong(index, trace, n)
  {
    if m < n {
      assert !Filled(index, trace, n - 1);
      NoKeysBetween(index, trace, m, n - 1);
    }
  }

  /** Where the keys are in order, neighbours meet. */
  lemma {:induction false} OrderMeets(index: Index, trace: seq<nat>, j: nat, m: nat)
    requires NonDecreasing(KeysAlong(index, trace, |trace|)) && NextFilled(index, trace, j, m)
    ensures Meets(index, trace, j, m)
  {
    NoKeysBetween(index, trace, j + 1, m);
    KeysPrefix(index, trace, m + 1, |trace|);
    var all, n := KeysAlong(index, trace, |trace|), |KeysAlong(index, trace, m)|;
    var p, q := index[trace[j]], index[trace[m]];
    assert KeysAlong(index, trace, m + 1) == KeysAlong(index, trace, m) + AllKeys(q);
    assert KeysAlong(index, trace, j + 1) == KeysAlong(index, trace, j) + AllKeys(p);
    assert all[n - 1] == KeysAlong(index, trace, m + 1)[n - 1] && all[n] == KeysAlong(index, trace, m + 1)[n];
    assert Rises(all, n);
  }

  /**
   * A level that passes has its keys in order if and only if they are in order across empty
   * pages, which is where the check does not look.
   */
  lemma {:induction false} LevelInOrderIff(index: Index, at: Level, trace: seq<nat>)
    requires LevelOk(index, at, trace)
    ensures NonDecreasing(KeysAlong(index, trace, |trace|))
            <==> forall j: nat, m: nat | EmptyBetween(index, trace, j, m) :: Meets(index, trace, j, m)
  {
    if NonDecreasing(KeysAlong(index, trace, |trace|)) {
      forall j: nat, m: nat | EmptyBetween(index, trace, j, m) ensures Meets(index, trace, j, m) {
        OrderMeets(index, trace, j, m);
      }
    } else if forall j: nat, m: nat | EmptyBetween(index, trace, j, m) :: Meets(index, trace, j, m) {
      InOrderSoFar(index, at, trace, |trace|);
    }
  }

  // ----- An empty page hides disorder -----

  function LeafPage(prev: nat, next: nat, items: seq<Item>): Page {
    Page(prev, next, 0, true, false, false, false, items)
  }

  /** Three leaves, the middle one empty but for its high key. */
  function Hiding(x: int, y: int, high: int): Index {
    map[1 := LeafPage(P_NONE, 2, [Item(high, 0), Item(x, 0)]),
        2 := LeafPage(1, 3, [Item(high, 0)]),
        3 := LeafPage(2, P_NONE, [Item(y, 0)])]
  }

  lemma {:induction false} HidingPages(x: int, y: int, high: int)
    requires x <= high
    ensures var index := Hiding(x, y, high);
            PageOk(index, index[1]) && PageOk(index, index[2]) && PageOk(index, index[3])
  {
    var index := Hiding(x, y, high);
    assert NextLive(index, 2, 1) == Found(2) && BoundAt(index, 2, 1) == NoBound;
    assert BoundIs(index, index[1], NoBound) && Respects(index[1], NoBound);
    assert RealCount(index[2]) == 0 && forall i: nat :: !IsReal(index[2], i);
    assert BoundIs(index, index[3], NoBound) && Respects(index[3], NoBound);
  }

  /** For any two keys, three leaves with an empty one between them pass the check, in order or not. */
  lemma {:induction false} EmptyPageHides(x: int, y: int, high: int)
    requires x <= high
    ensures LevelOk(Hiding(x, y, high), Level(0, 1, false), [1, 2, 3])
    ensures KeysAlong(Hiding(x, y, high), [1, 2, 3], 3) == [x, y]
  {
    var index, at, trace := Hiding(x, y, high), Level(0, 1, false), [1, 2, 3];
    HidingPages(x, y, high);
    assert StepOk(index, at, trace, 0) && StepOk(index, at, trace, 1) && StepOk(index, at, trace, 2);
    assert AllKeys(index[1]) == [x] && AllKeys(index[2]) == [] && AllKeys(index[3]) == [y];
    assert KeysAlong(index, trace, 1) == [] + AllKeys(index[1]);
    assert KeysAlong(index, trace, 2) == KeysAlong(index, trace, 1) + AllKeys(index[2]);
    assert KeysAlong(index, trace, 3) == KeysAlong(index, trace, 2) + AllKeys(index[3]);
  }
}
