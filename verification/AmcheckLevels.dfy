/** The walk of the B-tree verifier along one level, and its descent through all levels. */
module AmcheckLevels {
  import opened Finite
  import opened AmcheckPages

  datatype Level = Level(level: nat, leftmost: nat, trueRoot: bool)

  /** What the first page in use on a level says about the next level down. */
  datatype Descent = NoPage | LeafDone | Down(to: Level)

  function DescentOf(p: Page): Descent
    requires !p.leaf ==> FirstData(p) < |p.items| && p.level > 0
  {
    if p.leaf then LeafDone else Down(Level(p.level - 1, p.items[FirstData(p)].down, false))
  }

  /** The level below is found from a page. */
  predicate Descends(p: Page, down: Descent) {
    && (!p.leaf ==> FirstData(p) < |p.items| && p.level > 0)
    && down == DescentOf(p)
  }

  // ----- A walk along a level -----

  /** What is asked of block `b` when `left` is the block visited before it. */
  ghost predicate VisitOk(index: Index, left: nat, b: nat, level: nat) {
    && Readable(index, b) && b != left && b != index[b].prev
    && if Ignorable(index[b]) then !Rightmost(index[b])
       else index[b].prev == left && index[b].level == level && PageOk(index, index[b])
  }

  function LeftOf(trace: seq<nat>, k: nat): nat
    requires k <= |trace|
  {
    if k == 0 then P_NONE else trace[k - 1]
  }

  /** The block that follows the first `k` blocks of a walk from `leftmost`. */
  function Following(index: Index, leftmost: nat, trace: seq<nat>, k: nat): nat
    requires k <= |trace|
  {
    if k == 0 then leftmost else if trace[k - 1] in index then index[trace[k - 1]].next else P_NONE
  }

  ghost predicate StepOk(index: Index, at: Level, trace: seq<nat>, k: nat)
    requires k < |trace|
  {
    && trace[k] == Following(index, at.leftmost, trace, k) != P_NONE
    && VisitOk(index, LeftOf(trace, k), trace[k], at.level)
  }

  ghost predicate Walked(index: Index, at: Level, trace: seq<nat>) {
    forall k: nat | k < |trace| :: StepOk(index, at, trace, k)
  }

  /** The first page is in use, leftmost, and the root if it should be. */
  predicate Opens(index: Index, at: Level, b: nat) {
    b in index && !Ignorable(index[b]) && Leftmost(index[b]) && (at.trueRoot ==> index[b].root)
  }

  /** A whole level in order, visited as `trace`. */
  ghost predicate LevelOk(index: Index, at: Level, trace: seq<nat>) {
    && trace != [] && Walked(index, at, trace) && Opens(index, at, trace[0])
    && Following(index, at.leftmost, trace, |trace|) == P_NONE
  }

  /** Item `i` of the page in use at place `k` of the walk is a real one. */
  predicate RealAt(index: Index, trace: seq<nat>, k: nat, i: nat) {
    k < |trace| && trace[k] in index && !Ignorable(index[trace[k]]) && IsReal(index[trace[k]], i)
  }

  /** Real items are at most the high key of their page, and downlinks bound their children. */
  ghost predicate ItemsBounded(index: Index, trace: seq<nat>) {
    forall k: nat, i: nat | RealAt(index, trace, k, i) :: ItemBounded(index, index[trace[k]], i)
  }

  ghost predicate ItemBounded(index: Index, p: Page, i: nat)
    requires i < |p.items|
  {
    UnderHighKey(p, i) && (!p.leaf ==> Bounds(index, p.items[i].down, p.items[i].key))
  }

  lemma {:induction false} PassedIsBounded(index: Index, at: Level, trace: seq<nat>)
    requires Walked(index, at, trace)
    ensures ItemsBounded(index, trace)
  {
    forall k: nat, i: nat | RealAt(index, trace, k, i) ensures ItemBounded(index, index[trace[k]], i) {
      assert StepOk(index, at, trace, k);
      assert ItemOk(index, index[trace[k]], i);
    }
  }

  lemma {:induction false} WalkedMore(index: Index, at: Level, trace: seq<nat>, b: nat)
    requires Walked(index, at, trace) && b == Following(index, at.leftmost, trace, |trace|) != P_NONE
    requires VisitOk(index, LeftOf(trace, |trace|), b, at.level)
    ensures Walked(index, at, trace + [b])
  {
    var t := trace + [b];
    forall k: nat | k < |t| ensures StepOk(index, at, t, k) {
      if k < |trace| { assert StepOk(index, at, trace, k); }
    }
  }

  /** Two walks along one level agree as far as both go. */
  lemma {:induction false} WalksAgree(index: Index, at: Level, s: seq<nat>, t: seq<nat>, k: nat)
    requires Walked(index, at, s) && Walked(index, at, t) && k < |s| && k < |t|
    ensures s[k] == t[k]
  {
    if k > 0 { WalksAgree(index, at, s, t, k - 1); }
    assert StepOk(index, at, s, k) && StepOk(index, at, t, k);
  }

  /** A complete walk goes at least as far as any other, and over the same next block. */
  lemma {:induction false} GoesOn(index: Index, at: Level, s: seq<nat>, t: seq<nat>, k: nat)
    requires Walked(index, at, s) && LevelOk(index, at, t) && k <= |s|
    requires Following(index, at.leftmost, s, |s|) != P_NONE
    ensures k < |t| && t[k] == Following(index, at.leftmost, s, k) && LeftOf(t, k) == LeftOf(s, k)
  {
    if k > 0 {
      GoesOn(index, at, s, t, k - 1);
      WalksAgree(index, at, s, t, k - 1);
      if k < |s| { assert StepOk(index, at, s, k); }
    }
    if k < |t| { assert StepOk(index, at, t, k); }
  }

  lemma {:induction false} StepHolds(index: Index, at: Level, t: seq<nat>, k: nat)
    requires LevelOk(index, at, t) && k < |t|
    ensures VisitOk(index, LeftOf(t, k), t[k], at.level) && Opens(index, at, t[0])
  {
    assert StepOk(index, at, t, k);
  }

  /** If the next block fails, the level is not in order, whatever the walk. */
  lemma {:induction false} FailureIsReal(index: Index, at: Level, trace: seq<nat>, b: nat)
    requires Walked(index, at, trace) && b == Following(index, at.leftmost, trace, |trace|) != P_NONE
    requires !VisitOk(index, LeftOf(trace, |trace|), b, at.level) || (trace == [] && !Opens(index, at, b))
    ensures forall t :: !LevelOk(index, at, t)
  {
    forall t ensures !LevelOk(index, at, t) {
      if LevelOk(index, at, t) {
        GoesOn(index, at, trace, t, |trace|);
        StepHolds(index, at, t, |trace|);
      }
    }
  }

  lemma {:induction false} BadStart(index: Index, at: Level, trace: seq<nat>)
    requires Walked(index, at, trace) && trace != [] && !Opens(index, at, trace[0])
    ensures forall t :: !LevelOk(index, at, t)
  {
    forall t ensures !LevelOk(index, at, t) {
      if LevelOk(index, at, t) {
        WalksAgree(index, at, trace, t, 0);
      }
    }
  }

  // ----- Without ignorable pages no block comes twice -----

  /** The chain of right links stays in `s`, and no page there is ignorable. */
  ghost predicate LiveChain(index: Index, s: set<nat>) {
    forall b | b in s && b in index :: !Ignorable(index[b]) && (index[b].next == P_NONE || index[b].next in s)
  }

  lemma {:induction false} StaysInChain(index: Index, at: Level, trace: seq<nat>, s: set<nat>, k: nat)
    requires Walked(index, at, trace) && LiveChain(index, s) && at.leftmost in s && k < |trace|
    ensures trace[k] in s && trace[k] in index && !Ignorable(index[trace[k]])
  {
    assert StepOk(index, at, trace, k);
    if k > 0 { StaysInChain(index, at, trace, s, k - 1); }
  }

  lemma {:induction false} NoBlockTwice(index: Index, at: Level, trace: seq<nat>, s: set<nat>, i: nat, j: nat)
    requires Walked(index, at, trace) && LiveChain(index, s) && at.leftmost in s && i < j < |trace|
    ensures trace[i] != trace[j]
  {
    StaysInChain(index, at, trace, s, i);
    StaysInChain(index, at, trace, s, j);
    assert StepOk(index, at, trace, i) && StepOk(index, at, trace, j);
    if i > 0 {
      NoBlockTwice(index, at, trace, s, i - 1, j - 1);
    } else {
      assert StepOk(index, at, trace, j - 1);
    }
  }

  /** The walk is no longer than the index. */
  lemma {:induction false} WalkIsShort(index: Index, at: Level, trace: seq<nat>, s: set<nat>)
    requires Walked(index, at, trace) && LiveChain(index, s) && at.leftmost in s
    ensures |trace| <= |index|
  {
    if |trace| > |index| {
      forall k: nat | k < |trace| ensures trace[k] in index.Keys { assert StepOk(index, at, trace, k); }
      var i, j := Repeats(trace, index.Keys);
      NoBlockTwice(index, at, trace, s, i, j);
    }
  }

  // ----- Levels that never end -----

  ghost predicate AllIgnorable(index: Index, trace: seq<nat>) {
    forall k: nat | k < |trace| :: trace[k] in index && Ignorable(index[trace[k]])
  }

  /** A walk that has met no page in use yet, or began with the right one. */
  ghost predicate Goes(index: Index, at: Level, trace: seq<nat>) {
    Walked(index, at, trace) && (AllIgnorable(index, trace) || Opens(index, at, trace[0]))
  }

  /** The check of block `b` gets as far as its items. */
  ghost predicate Entered(index: Index, at: Level, left: nat, b: nat, first: bool) {
    && Readable(index, b) && !Ignorable(index[b]) && (first ==> Opens(index, at, b))
    && index[b].prev == left && index[b].level == at.level
  }

  /** It gets as far as to look at the page to the right. */
  ghost predicate Examined(index: Index, at: Level, left: nat, b: nat, first: bool) {
    Entered(index, at, left, b, first) && LooksRight(index, index[b])
  }

  /** The check of the block behind the walk never finds a page to the right. */
  ghost predicate Hangs(index: Index, at: Level, trace: seq<nat>) {
    var b := Following(index, at.leftmost, trace, |trace|);
    && b != P_NONE && Examined(index, at, LeftOf(trace, |trace|), b, AllIgnorable(index, trace))
    && NextLive(index, index[b].next, |index| + 1) == TooLong
  }

  /** The level has a walk that is longer than the index, or one that leads to such a block. */
  ghost predicate Endless(index: Index, at: Level) {
    exists trace :: Goes(index, at, trace) && (|trace| > |index| || Hangs(index, at, trace))
  }

  /** A walk that is back at a block goes on as it did before. */
  lemma {:induction false} OneMore(index: Index, at: Level, t: seq<nat>, i: nat)
    requires Goes(index, at, t) && i + 1 < |t| && t[i] == t[|t| - 1]
    ensures Goes(index, at, t + [t[i + 1]])
  {
    assert StepOk(index, at, t, i + 1);
    WalkedMore(index, at, t, t[i + 1]);
    if AllIgnorable(index, t) {
      assert AllIgnorable(index, t + [t[i + 1]]);
    }
  }

  lemma {:induction false} GoesPart(index: Index, at: Level, t: seq<nat>, n: nat)
    requires Goes(index, at, t) && n <= |t|
    ensures Goes(index, at, t[..n])
  {
    forall k: nat | k < n ensures StepOk(index, at, t[..n], k) { assert StepOk(index, at, t, k); }
    if AllIgnorable(index, t) || n == 0 { assert AllIgnorable(index, t[..n]); }
  }

  lemma {:induction false} AroundAgain(index: Index, at: Level, t: seq<nat>, i: nat, n: nat) returns (u: seq<nat>)
    requires Goes(index, at, t) && i + 1 < |t| && t[i] == t[|t| - 1] && |t| <= n
    ensures Goes(index, at, u) && |u| == n
    decreases n - |t|
  {
    u := t;
    if |t| < n {
      OneMore(index, at, t, i);
      u := AroundAgain(index, at, t + [t[i + 1]], i + 1, n);
    }
  }

  /** A walk that is longer than the index is in a circle: there are walks of any length. */
  lemma {:induction false} AnyLength(index: Index, at: Level, trace: seq<nat>, n: nat) returns (u: seq<nat>)
    requires Goes(index, at, trace) && |trace| > |index|
    ensures Goes(index, at, u) && |u| == n
  {
    forall k: nat | k < |trace| ensures trace[k] in index.Keys { assert StepOk(index, at, trace, k); }
    var i, j := Repeats(trace, index.Keys);
    GoesPart(index, at, trace, j + 1);
    if n <= j + 1 {
      GoesPart(index, at, trace, n);
      u := trace[..n];
    } else {
      u := AroundAgain(index, at, trace[..j + 1], i, n);
    }
  }

  /** A page that passes has a page to its right that can be found. */
  lemma {:induction false} PassedIsFound(index: Index, p: Page)
    requires PageOk(index, p) && LooksRight(index, p)
    ensures NextLive(index, p.next, |index| + 1) != TooLong
  {
    var r :| BoundIs(index, p, r) && Respects(p, r);
    var n: nat :| NextLive(index, p.next, n).Found? && r == BoundAt(index, p.next, n);
    if NextLive(index, p.next, |index| + 1) == TooLong { TooLongForever(index, p.next, n); }
  }

  /** A walk that passed a block did not hang there. */
  lemma {:induction false} PassedIsNoHang(index: Index, at: Level, s: seq<nat>, t: seq<nat>)
    requires Walked(index, at, s) && Goes(index, at, t) && |t| < |s|
    ensures !Hangs(index, at, t)
  {
    SameNext(index, at, s, t);
    assert StepOk(index, at, s, |t|);
    if Hangs(index, at, t) { PassedIsFound(index, index[s[|t|]]); }
  }

  /** Two walks lead to the same block. */
  lemma {:induction false} SameNext(index: Index, at: Level, s: seq<nat>, t: seq<nat>)
    requires Walked(index, at, s) && Walked(index, at, t) && |t| <= |s|
    ensures Following(index, at.leftmost, t, |t|) == Following(index, at.leftmost, s, |t|)
    ensures LeftOf(t, |t|) == LeftOf(s, |t|)
    ensures |t| < |s| ==> s[|t|] == Following(index, at.leftmost, t, |t|) != P_NONE
    ensures t == s[..|t|]
  {
    forall k: nat | k < |t| ensures t[k] == s[k] { WalksAgree(index, at, s, t, k); }
    if |t| < |s| { assert StepOk(index, at, s, |t|); }
  }

  /** A level in order has an end. */
  lemma {:induction false} LevelEnds(index: Index, at: Level, trace: seq<nat>)
    requires LevelOk(index, at, trace)
    ensures !Endless(index, at)
  {
    forall t | Goes(index, at, t) ensures |t| <= |index| && !Hangs(index, at, t) {
      if |t| > |index| {
        var u := AnyLength(index, at, t, |trace| + 1);
        SameNext(index, at, u, trace);
      }
      if |t| < |trace| {
        PassedIsNoHang(index, at, trace, t);
      } else {
        SameNext(index, at, t, trace);
      }
    }
  }

  /** A block that fails, and does not hang, is the end of the level. */
  lemma {:induction false} FailureEnds(index: Index, at: Level, trace: seq<nat>, b: nat, down: Descent)
    requires Goes(index, at, trace) && b == Following(index, at.leftmost, trace, |trace|) != P_NONE
    requires DownIs(index, at, trace, down) && Fails(index, at, LeftOf(trace, |trace|), b, down)
    requires !Hangs(index, at, trace)
    ensures !Endless(index, at)
  {
    forall t | Goes(index, at, t) ensures |t| <= |index| && !Hangs(index, at, t) {
      if |t| > |index| {
        var u := AnyLength(index, at, t, |trace| + 1);
        FailureStops(index, at, trace, b, down, u);
      }
      if |t| < |trace| {
        PassedIsNoHang(index, at, trace, t);
      } else if |t| == |trace| {
        SameNext(index, at, t, trace);
      } else {
        FailureStops(index, at, trace, b, down, t);
      }
    }
  }

  lemma {:induction false} FailureStops(index: Index, at: Level, trace: seq<nat>, b: nat, down: Descent, t: seq<nat>)
    requires Walked(index, at, trace) && b == Following(index, at.leftmost, trace, |trace|) != P_NONE
    requires DownIs(index, at, trace, down) && Fails(index, at, LeftOf(trace, |trace|), b, down)
    requires Walked(index, at, t) && |t| > |trace|
    ensures !Goes(index, at, t)
  {
    SameNext(index, at, t, trace);
    assert StepOk(index, at, t, |trace|);
    assert t[|trace|] == b && (trace != [] ==> t[0] == trace[0]);
  }

  /** Without ignorable pages every level has an end. */
  lemma {:induction false} LiveChainEnds(index: Index, at: Level, s: set<nat>)
    requires LiveChain(index, s) && at.leftmost in s
    ensures !Endless(index, at)
  {
    forall t | Goes(index, at, t) ensures |t| <= |index| && !Hangs(index, at, t) {
      WalkIsShort(index, at, t, s);
      var b := Following(index, at.leftmost, t, |t|);
      if t != [] { StaysInChain(index, at, t, s, |t| - 1); }
      if b != P_NONE && b in index { ShortSearch(index, index[b].next, |index| + 1, s); }
    }
  }

  lemma {:induction false} ShortSearch(index: Index, b: nat, n: nat, s: set<nat>)
    requires LiveChain(index, s) && n > 0 && (b == P_NONE || b in s)
    ensures b != P_NONE ==> NextLive(index, b, n) != TooLong
  {
  }

  // ----- The walk -----

  /** The most items on any page. */
  ghost function MostItems(index: Index): nat
    decreases |index|
  {
    if index.Keys == {} then 0
    else
      var b: nat :| b in index;
      Larger(MostItems(index - {b}), |index[b].items|)
  }

  function Larger(a: nat, b: nat): nat { if a < b then b else a }

  lemma {:induction false} MostItemsIs(index: Index, b: nat)
    requires b in index
    ensures |index[b].items| <= MostItems(index)
    decreases |index|
  {
    var c: nat :| c in index && MostItems(index) == Larger(MostItems(index - {c}), |index[c].items|);
    if b != c {
      MostItemsIs(index - {c}, b);
      assert (index - {c})[b] == index[b];
    }
    assert Larger(MostItems(index - {c}), |index[c].items|) >= |index[b].items|;
  }

  /** The patience that is enough for `n` pages, each with all its items and a look at the page to the right. */
  ghost function Cost(index: Index, n: nat): nat {
    if n == 0 then 0 else Cost(index, n - 1) + MostItems(index) + |index| + 2
  }

  lemma {:induction false} CostMonotone(index: Index, m: nat, n: nat)
    requires m <= n
    ensures Cost(index, m) <= Cost(index, n)
  {
    if m < n { CostMonotone(index, m, n - 1); }
  }

  /** The patience that is enough for a level with an end. */
  ghost function Enough(index: Index): nat { Cost(index, |index| + 1) }

  /** Block `b` is not what it should be, be it as the first page in use. */
  ghost predicate Fails(index: Index, at: Level, left: nat, b: nat, down: Descent) {
    || !VisitOk(index, left, b, at.level)
    || (down == NoPage && !Ignorable(index[b]) && !Opens(index, at, b))
  }

  /** The user cancels during the visit of block `b`. */
  ghost predicate CancelledAt(index: Index, at: Level, left: nat, b: nat, first: bool, patience: nat) {
    patience == 0 || (Entered(index, at, left, b, first) && OutOfPatience(index, index[b], patience - 1))
  }

  /** The page checks of the loop of `bt_check_level_from_leftmost`, up to `nextpage`. */
  method VisitPage(st: CheckState, at: Level, left: nat, current: nat, down: Descent)
    returns (v: Verdict, down': Descent)
    requires Physical(st.index)
    modifies st
    ensures st.patience <= old(st.patience) && (v != Cancelled ==> st.patience < old(st.patience))
    ensures v == Ok ==> VisitOk(st.index, left, current, at.level)
    ensures v == Ok && (Ignorable(st.index[current]) || down != NoPage) ==> down' == down
    ensures v == Ok && !Ignorable(st.index[current]) && down == NoPage ==>
              Opens(st.index, at, current) && Descends(st.index[current], down')
    ensures v == Corrupt ==> Fails(st.index, at, left, current, down)
    ensures v == Cancelled <==> CancelledAt(st.index, at, left, current, down == NoPage, old(st.patience))
    ensures v != Cancelled ==> st.patience >= old(st.patience) - MostItems(st.index) - |st.index| - 2
  {
    down' := down;
    if st.patience == 0 { return Cancelled, down; }
    st.patience := st.patience - 1;
    if !Readable(st.index, current) { return Corrupt, down; }
    st.targetBlock, st.target := current, st.index[current];
    var p := st.target;
    if Ignorable(p) {
      if Rightmost(p) { return Corrupt, down; }
    } else {
      if down == NoPage {
        if !Leftmost(p) || (at.trueRoot && !p.root) { return Corrupt, down; }
        down' := DescentOf(p);
      }
      if p.prev != left || p.level != at.level { return Corrupt, down; }
      MostItemsIs(st.index, current);
      v := st.TargetPageCheck();
      if v != Ok { return v, down; }
    }
    if current == left || current == p.prev { return Corrupt, down; }
    v := Ok;
  }

  /** What is known of the next level once `trace` has been visited. */
  ghost predicate DownIs(index: Index, at: Level, trace: seq<nat>, down: Descent) {
    if AllIgnorable(index, trace) then down == NoPage
    else Opens(index, at, trace[0]) && Descends(index[trace[0]], down)
  }

  lemma {:induction false} Refuted(index: Index, at: Level, trace: seq<nat>, b: nat, down: Descent)
    requires Walked(index, at, trace) && b == Following(index, at.leftmost, trace, |trace|) != P_NONE
    requires DownIs(index, at, trace, down) && Fails(index, at, LeftOf(trace, |trace|), b, down)
    ensures forall t :: !LevelOk(index, at, t)
  {
    if trace == [] || !VisitOk(index, LeftOf(trace, |trace|), b, at.level) {
      FailureIsReal(index, at, trace, b);
    } else {
      assert AllIgnorable(index, trace) ==> Ignorable(index[trace[0]]);
      BadStart(index, at, trace);
    }
  }

  lemma {:induction false} Advance(index: Index, at: Level, trace: seq<nat>, b: nat, down: Descent, down': Descent)
    requires Walked(index, at, trace) && b == Following(index, at.leftmost, trace, |trace|) != P_NONE
    requires DownIs(index, at, trace, down) && VisitOk(index, LeftOf(trace, |trace|), b, at.level)
    requires Ignorable(index[b]) || down != NoPage ==> down' == down
    requires !Ignorable(index[b]) && down == NoPage ==> Opens(index, at, b) && Descends(index[b], down')
    ensures Walked(index, at, trace + [b]) && DownIs(index, at, trace + [b], down')
  {
    WalkedMore(index, at, trace, b);
    var t := trace + [b];
    if trace != [] {
      assert StepOk(index, at, trace, |trace| - 1);
      assert t[0] == trace[0];
    }
    assert t[|trace|] == b;
    if AllIgnorable(index, trace) && Ignorable(index[b]) { assert AllIgnorable(index, t); }
  }

  /** A user who is patient enough cancels only what has no end. */
  lemma {:induction false} PatientIsRight(index: Index, at: Level, trace: seq<nat>, patience: nat, down: Descent)
    requires Goes(index, at, trace) && DownIs(index, at, trace, down)
    requires patience >= Enough(index) - Cost(index, |trace|)
    requires var b := Following(index, at.leftmost, trace, |trace|);
             b != P_NONE && CancelledAt(index, at, LeftOf(trace, |trace|), b, down == NoPage, patience)
    ensures Endless(index, at)
  {
    if |trace| <= |index| {
      CostMonotone(index, |trace|, |index|);
      var b := Following(index, at.leftmost, trace, |trace|);
      MostItemsIs(index, b);
      SeenBound(index, index[b], FirstData(index[b]));
      var left := patience - 1 - Seen(index, index[b], FirstData(index[b]));
      ShorterIsTooLong(index, index[b].next, |index| + 1, left);
      assert Hangs(index, at, trace);
    }
  }

  lemma {:induction false} NoHang(index: Index, at: Level, trace: seq<nat>, b: nat, down: Descent, patience: nat)
    requires DownIs(index, at, trace, down) && b == Following(index, at.leftmost, trace, |trace|)
    requires !CancelledAt(index, at, LeftOf(trace, |trace|), b, down == NoPage, patience)
    ensures !Hangs(index, at, trace)
  {
    if Hangs(index, at, trace) {
      TooLongForever(index, index[b].next, patience - 1 - Seen(index, index[b], FirstData(index[b])));
    }
  }

  lemma {:induction false} CostOf(index: Index, at: Level, trace: seq<nat>, k: nat)
    requires Goes(index, at, trace) && !Endless(index, at) && k <= |trace| + 1
    ensures Cost(index, k) <= Enough(index)
  {
    CostMonotone(index, k, |index| + 1);
  }

  /**
   * `bt_check_level_from_leftmost`: a normal return means that the level is in order, and an
   * error that it is not. A check of a level that has no end is always cancelled, and a check
   * of any other level is not if the user is patient enough.
   */
  method CheckLevel(st: CheckState, at: Level) returns (v: Verdict, down: Descent, ghost trace: seq<nat>)
    requires Physical(st.index) && at.leftmost != P_NONE
    modifies st
    ensures st.patience <= old(st.patience)
    ensures v == Ok ==> LevelOk(st.index, at, trace) && Descends(st.index[trace[0]], down)
    ensures v == Ok ==> ItemsBounded(st.index, trace)
    ensures v == Corrupt ==> forall t :: !LevelOk(st.index, at, t)
    ensures Endless(st.index, at) ==> v == Cancelled
    ensures old(st.patience) >= Enough(st.index) && v == Cancelled ==> Endless(st.index, at)
    ensures v != Cancelled ==> st.patience >= old(st.patience) - Enough(st.index)
  {
    var current, left := at.leftmost, P_NONE;
    trace, down := [], NoPage;
    while true
      invariant Goes(st.index, at, trace) && st.patience <= old(st.patience)
      invariant left == LeftOf(trace, |trace|)
      invariant current == Following(st.index, at.leftmost, trace, |trace|) != P_NONE
      invariant DownIs(st.index, at, trace, down)
      invariant st.patience >= old(st.patience) - Cost(st.index, |trace|)
      decreases st.patience
    {
      ghost var before, patience := down, st.patience;
      v, down := VisitPage(st, at, left, current, down);
      if v == Cancelled {
        if old(st.patience) >= Enough(st.index) { PatientIsRight(st.index, at, trace, patience, before); }
        return;
      }
      if v == Corrupt {
        EndsHere(st.index, at, trace, current, before, patience);
        return;
      }
      Advance(st.index, at, trace, current, before, down);
      trace := trace + [current];
      left, current := current, st.index[current].next;
      if current == P_NONE { break; }
    }
    EndsWell(st.index, at, trace);
  }

  /** A block that fails shows that the level is not in order, and is its end. */
  lemma {:induction false} EndsHere(index: Index, at: Level, trace: seq<nat>, b: nat, down: Descent, patience: nat)
    requires Goes(index, at, trace) && b == Following(index, at.leftmost, trace, |trace|) != P_NONE
    requires DownIs(index, at, trace, down) && Fails(index, at, LeftOf(trace, |trace|), b, down)
    requires !CancelledAt(index, at, LeftOf(trace, |trace|), b, down == NoPage, patience)
    ensures (forall t :: !LevelOk(index, at, t)) && !Endless(index, at)
    ensures Cost(index, |trace|) + MostItems(index) + |index| + 2 <= Enough(index)
  {
    Refuted(index, at, trace, b, down);
    NoHang(index, at, trace, b, down, patience);
    FailureEnds(index, at, trace, b, down);
    CostOf(index, at, trace, |trace| + 1);
  }

  lemma {:induction false} EndsWell(index: Index, at: Level, trace: seq<nat>)
    requires LevelOk(index, at, trace) && Goes(index, at, trace)
    ensures !Endless(index, at) && ItemsBounded(index, trace) && Cost(index, |trace|) <= Enough(index)
  {
    LevelEnds(index, at, trace);
    CostOf(index, at, trace, |trace|);
    PassedIsBounded(index, at, trace);
  }

  // ----- Ignorable pages can lead in a circle -----

  function DeletedPage(next: nat): Page { Page(P_NONE, next, 0, true, false, true, false, []) }

  /** An empty leaf, and three deleted pages that link to each other. */
  function Circle(): Index {
    map[1 := Page(P_NONE, 2, 0, true, false, false, false, []),
        2 := DeletedPage(3), 3 := DeletedPage(4), 4 := DeletedPage(2)]
  }

  function CircleBlock(k: nat): nat {
    if k == 0 then 1 else if k % 3 == 1 then 2 else if k % 3 == 2 then 3 else 4
  }

  function CircleWalk(n: nat): (trace: seq<nat>)
    ensures |trace| == n && forall k | 0 <= k < n :: trace[k] == CircleBlock(k)
  {
    if n == 0 then [] else CircleWalk(n - 1) + [CircleBlock(n - 1)]
  }

  /** The test for circular links looks at neighbours only, so here a walk of any length passes it. */
  lemma {:induction false} CircleWalked(n: nat)
    ensures Walked(Circle(), Level(0, 1, false), CircleWalk(n))
  {
    var index, at, trace := Circle(), Level(0, 1, false), CircleWalk(n);
    assert RealCount(index[1]) == 0 && forall i: nat :: !IsReal(index[1], i);
    forall k: nat | k < n ensures StepOk(index, at, trace, k) {
      assert trace[k] == CircleBlock(k);
      if k > 0 { assert trace[k - 1] == CircleBlock(k - 1); }
    }
  }

  lemma {:induction false} CircleNeverEnds()
    ensures Endless(Circle(), Level(0, 1, false))
  {
    var index, at, trace := Circle(), Level(0, 1, false), CircleWalk(5);
    CircleWalked(5);
    SizeOfFour(index);
    assert trace[0] == 1 && Opens(index, at, 1);
    assert Goes(index, at, trace);
  }

  lemma SizeOfFour(index: Index)
    requires index.Keys == {1, 2, 3, 4}
    ensures |index| == 4
  {
    assert |index| == |index.Keys|;
  }
}
