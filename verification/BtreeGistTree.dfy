/**
 * Trees over variable-length keys: how inserts and splits produce the keys of inner
 * entries, and what a descending search finds below them.
 */
module BtreeGistTree {
  import opened Bytea
  import opened Permutations
  import opened BtreeGistVar

  datatype Tree = Leaf(value: bytes) | Inner(key: Key, kids: seq<Tree>)

  function KeyOf(t: Tree): Key {
    match t
    case Leaf(v) => Key(v, v)
    case Inner(k, _) => k
  }

  ghost function Values(t: Tree): set<bytes> {
    match t
    case Leaf(v) => {v}
    case Inner(_, kids) => set kid, v | kid in kids && v in Values(kid) :: v
  }

  /** A search descends only into entries that the consistent method accepts. */
  ghost function Search(t: Tree, query: bytes, strategy: Strategy): set<bytes> {
    match t
    case Leaf(v) => if Consistent(Key(v, v), query, strategy, true) then {v} else {}
    case Inner(k, kids) =>
      if Consistent(k, query, strategy, false)
      then set kid, v | kid in kids && v in Search(kid, query, strategy) :: v
      else {}
  }

  /** Every inner key is a valid interval that covers all values below it. */
  ghost predicate WellKeyed(t: Tree) {
    match t
    case Leaf(_) => true
    case Inner(k, kids) =>
      ValidKey(k) && (forall v | v in Values(t) :: Covers(k, v)) && forall kid | kid in kids :: WellKeyed(kid)
  }

  lemma {:induction false} SearchFinds(t: Tree, query: bytes, strategy: Strategy, v: bytes)
    requires WellKeyed(t)
    ensures v in Search(t, query, strategy) <==> v in Values(t) && Satisfies(strategy, v, query)
  {
    match t
    case Leaf(w) => LeafExact(w, query, strategy);
    case Inner(k, kids) =>
      forall kid | kid in kids
        ensures v in Search(kid, query, strategy) <==> v in Values(kid) && Satisfies(strategy, v, query)
      {
        SearchFinds(kid, query, strategy, v);
      }
      if v in Values(t) && Satisfies(strategy, v, query) {
        CoversNeverRejects(k, v);
      }
  }

  /** Searching a well-keyed tree finds exactly the stored values that satisfy the operator. */
  lemma SearchExact(t: Tree, query: bytes, strategy: Strategy)
    requires WellKeyed(t)
    ensures Search(t, query, strategy) == set v | v in Values(t) && Satisfies(strategy, v, query)
  {
    forall v ensures v in Search(t, query, strategy) <==> v in Values(t) && Satisfies(strategy, v, query) {
      SearchFinds(t, query, strategy, v);
    }
  }

  lemma LeafExact(v: bytes, query: bytes, strategy: Strategy)
    ensures Consistent(Key(v, v), query, strategy, true) <==> Satisfies(strategy, v, query)
  {
    LeqTotal(v, query);
    CmpZero(query, v);
  }

  // ----- How an index changes -----

  /** The root page has no key of its own. */
  type Page = seq<Tree>

  ghost function PageValues(kids: Page): set<bytes> { set kid, v | kid in kids && v in Values(kid) :: v }

  ghost function SearchPage(kids: Page, query: bytes, strategy: Strategy): set<bytes> {
    set kid, v | kid in kids && v in Search(kid, query, strategy) :: v
  }

  ghost predicate AllWellKeyed(kids: Page) { forall kid | kid in kids :: WellKeyed(kid) }

  function KeysOf(ts: seq<Tree>): (ks: seq<Key>)
    ensures |ks| == |ts|
    ensures forall i | 0 <= i < |ts| :: ks[i] == KeyOf(ts[i])
  {
    seq(|ts|, i requires 0 <= i < |ts| => KeyOf(ts[i]))
  }

  /** An entry whose key takes in one more value. */
  function Widened(t: Tree, v: bytes): Key { UnionKey([KeyOf(t), Key(v, v)]) }

  /** The first `n` keys of a page taken in one after the other, each union cut before the next. */
  function Folded(ks: seq<Key>, n: nat): Key
    requires 0 < n <= |ks|
  {
    if n == 1 then ks[0] else UnionKey([Folded(ks, n - 1), ks[n - 1]])
  }

  /** One side of a split page. */
  function Side(near: Page, far: Page): Tree
    requires |near| > 0 && |far| > 0
  {
    Inner(SplitKey(KeysOf(near), KeysOf(far)), near)
  }

  /** The entries of a page as `gbt_var_picksplit` deals them: sorted, and half to each side. */
  ghost predicate Dealt(kids: Page, near: Page, far: Page) {
    && |near| > 0 && |far| > 0
    && multiset(near + far) == multiset(kids) && |near| == (|near| + |far|) / 2
    && Ascending(near + far)
  }

  ghost predicate Ascending(ts: Page) { forall i | 0 < i < |ts| :: KeyLeq(KeyOf(ts[i - 1]), KeyOf(ts[i])) }

  /**
   * What changes on one page: a leaf entry is added; the key of an entry takes in a value that
   * is on its way down; an entry gives way to the two sides of its page; or an entry gets its
   * key anew from its page, as after an interrupted split.
   */
  datatype Edit =
    | Insert(v: bytes)
    | Widen(i: nat, v: bytes)
    | Split(i: nat, near: Page, far: Page)
    | Refit(i: nat)

  ghost predicate LegalHere(kids: Page, e: Edit) {
    match e
    case Insert(_) => forall kid | kid in kids :: kid.Leaf?
    case Widen(i, _) => i < |kids| && kids[i].Inner?
    case Split(i, near, far) => i < |kids| && kids[i].Inner? && Dealt(kids[i].kids, near, far)
    case Refit(i) => i < |kids| && kids[i].Inner? && kids[i].kids != []
  }

  function ChangeHere(kids: Page, e: Edit): Page
    requires LegalHere(kids, e)
  {
    match e
    case Insert(v) => kids + [Leaf(v)]
    case Widen(i, v) => kids[i := Inner(Widened(kids[i], v), kids[i].kids)]
    case Split(i, near, far) => kids[..i] + [Side(near, far), Side(far, near)] + kids[i + 1..]
    case Refit(i) => kids[i := Inner(Folded(KeysOf(kids[i].kids), |kids[i].kids|), kids[i].kids)]
  }

  /** The path leads down to a page on which the edit is possible. */
  ghost predicate Legal(kids: Page, path: seq<nat>, e: Edit)
    decreases path
  {
    if path == [] then LegalHere(kids, e)
    else path[0] < |kids| && kids[path[0]].Inner? && Legal(kids[path[0]].kids, path[1..], e)
  }

  /** An insert widens every key on its way; the other edits leave the keys above alone. */
  function Change(kids: Page, path: seq<nat>, e: Edit): Page
    requires Legal(kids, path, e)
    decreases path
  {
    if path == [] then ChangeHere(kids, e)
    else
      var t := kids[path[0]];
      kids[path[0] := Inner(if e.Insert? then Widened(t, e.v) else t.key, Change(t.kids, path[1..], e))]
  }

  datatype Step = At(path: seq<nat>, e: Edit) | SplitRoot(near: Page, far: Page)

  ghost predicate LegalStep(root: Page, step: Step) {
    match step
    case At(path, e) => Legal(root, path, e)
    case SplitRoot(near, far) => Dealt(root, near, far)
  }

  ghost function Do(root: Page, step: Step): Page
    requires LegalStep(root, step)
  {
    match step
    case At(path, e) => Change(root, path, e)
    case SplitRoot(near, far) => [Side(near, far), Side(far, near)]
  }

  /** Each step is possible on the index that the steps before it leave behind; at first it is empty. */
  ghost predicate LegalRun(run: seq<Step>)
    decreases |run|, 0
  {
    run == [] || (LegalRun(run[..|run| - 1]) && LegalStep(After(run[..|run| - 1]), run[|run| - 1]))
  }

  ghost function After(run: seq<Step>): Page
    requires LegalRun(run)
    decreases |run|, 1
  {
    if run == [] then [] else Do(After(run[..|run| - 1]), run[|run| - 1])
  }

  /** The values that a run has inserted. */
  ghost function Inserted(run: seq<Step>): set<bytes> {
    set step | step in run && step.At? && step.e.Insert? :: step.e.v
  }

  /** A split keeps every entry safe under the key of its side. */
  ghost predicate SafeSplit(near: Page, far: Page)
    requires |near| > 0 && |far| > 0
  {
    && (forall t | t in near :: SafeIn(KeyOf(t), Side(near, far).key))
    && (forall t | t in far :: SafeIn(KeyOf(t), Side(far, near).key))
  }

  ghost predicate SafeEdit(e: Edit) { e.Split? && |e.near| > 0 && |e.far| > 0 ==> SafeSplit(e.near, e.far) }

  ghost predicate SafeStep(step: Step) {
    match step
    case At(_, e) => SafeEdit(e)
    case SplitRoot(near, far) => |near| > 0 && |far| > 0 ==> SafeSplit(near, far)
  }

  // ----- A split, from the entries of the page -----

  /** Offsets start at one. */
  ghost predicate InPage(arr: seq<Vsrt>, n: nat) { forall j | 0 <= j < |arr| :: 1 <= arr[j].i <= n }

  function EntryOf(kids: Page): Vsrt --> Tree { (v: Vsrt) requires 1 <= v.i <= |kids| => kids[v.i - 1] }

  /** The entries with the offsets of the sorted array. */
  function Gathered(kids: Page, arr: seq<Vsrt>): (ts: Page)
    requires InPage(arr, |kids|)
    ensures |ts| == |arr|
    ensures forall j | 0 <= j < |arr| :: ts[j] == kids[arr[j].i - 1]
    ensures Defined(EntryOf(kids), arr) && ts == Map(EntryOf(kids), arr)
  {
    Map(EntryOf(kids), arr)
  }

  lemma {:induction false} NumberedAt(ks: seq<Key>, j: nat)
    requires j < |ks|
    ensures Numbered(ks)[j] == Vsrt(j + 1, ks[j])
  {
    if j < |ks| - 1 { NumberedAt(ks[..|ks| - 1], j); }
  }

  /** The page is split with `gbt_var_picksplit`: its two sides are dealt as the steps ask for. */
  method SplitPage(kids: Page) returns (l: Tree, r: Tree)
    requires |kids| >= 2
    ensures l.Inner? && r.Inner? && Dealt(kids, l.kids, r.kids)
    ensures l == Side(l.kids, r.kids) && r == Side(r.kids, l.kids)
  {
    var ks := KeysOf(kids);
    var arr, nleft, lkey, rkey := PickSplit(ks);
    var ts := Sorted(kids, arr);
    l, r := Inner(lkey, ts[..nleft]), Inner(rkey, ts[nleft..]);
    assert ts[..nleft] + ts[nleft..] == ts;
    assert Keys(arr)[..nleft] == KeysOf(ts[..nleft]) && Keys(arr)[nleft..] == KeysOf(ts[nleft..]);
  }

  /** The entries in the order of the sorted array. */
  method Sorted(kids: Page, arr: seq<Vsrt>) returns (ts: Page)
    requires SortedEntries(arr) && multiset(arr) == multiset(Numbered(KeysOf(kids)))
    ensures multiset(ts) == multiset(kids) && Ascending(ts) && Keys(arr) == KeysOf(ts)
  {
    AllSame(kids, arr);
    GatheredAll(kids, arr);
    GatheredKeys(kids, arr);
    ts := Gathered(kids, arr);
  }

  lemma AllSame(kids: Page, arr: seq<Vsrt>)
    requires multiset(arr) == multiset(Numbered(KeysOf(kids)))
    ensures InPage(arr, |kids|) && forall j | 0 <= j < |arr| :: SameEntry(kids, arr[j])
  {
    NumbersInPage(kids);
    forall j | 0 <= j < |arr| ensures SameEntry(kids, arr[j]) { var k := FindIn(arr, Numbered(KeysOf(kids)), j); }
  }

  lemma GatheredAll(kids: Page, arr: seq<Vsrt>)
    requires InPage(arr, |kids|) && multiset(arr) == multiset(Numbered(KeysOf(kids)))
    ensures multiset(Gathered(kids, arr)) == multiset(kids)
  {
    NumbersInPage(kids);
    var nums := Numbered(KeysOf(kids));
    MapPermuted(EntryOf(kids), arr, nums);
    assert Gathered(kids, nums) == kids;
  }

  lemma GatheredKeys(kids: Page, arr: seq<Vsrt>)
    requires InPage(arr, |kids|) && SortedEntries(arr) && forall j | 0 <= j < |arr| :: SameEntry(kids, arr[j])
    ensures Keys(arr) == KeysOf(Gathered(kids, arr)) && Ascending(Gathered(kids, arr))
  {
    var ts := Gathered(kids, arr);
    forall j | 0 <= j < |arr| ensures arr[j].t == KeyOf(ts[j]) { assert SameEntry(kids, arr[j]); }
    forall j | 0 < j < |ts| ensures KeyLeq(KeyOf(ts[j - 1]), KeyOf(ts[j])) {
      assert KeyLeq(arr[j - 1].t, arr[j].t);
    }
  }

  predicate SameEntry(kids: Page, v: Vsrt) { 1 <= v.i <= |kids| && v.t == KeyOf(kids[v.i - 1]) }

  lemma NumbersInPage(kids: Page)
    ensures var nums := Numbered(KeysOf(kids));
            forall j | 0 <= j < |nums| :: nums[j].i == j + 1 && SameEntry(kids, nums[j])
  {
    forall j | 0 <= j < |kids| ensures Numbered(KeysOf(kids))[j] == Vsrt(j + 1, KeyOf(kids[j])) {
      NumberedAt(KeysOf(kids), j);
    }
  }

  // ----- What every step keeps -----

  /** An entry's own key covers the values below it. */
  ghost predicate Covered(t: Tree) {
    ValidKey(KeyOf(t)) && forall v | v in Values(t) :: Covers(KeyOf(t), v)
  }

  lemma WellKeyedIsCovered(t: Tree)
    requires WellKeyed(t)
    ensures Covered(t)
  {
    if t.Leaf? { LeqReflexive(t.value); }
  }

  /** A page is well keyed when its key covers whatever one of its entries' keys covers. */
  lemma PageWellKeyed(t: Tree)
    requires t.Inner? && ValidKey(t.key)
    requires forall kid | kid in t.kids :: WellKeyed(kid)
    requires forall kid, v | kid in t.kids && Covers(KeyOf(kid), v) :: Covers(t.key, v)
    ensures WellKeyed(t)
  {
    forall v | v in Values(t) ensures Covers(t.key, v) {
      var kid :| kid in t.kids && v in Values(kid);
      WellKeyedIsCovered(kid);
    }
  }

  /** A widened key covers the value and all that it covered before. */
  lemma WidenedCovers(t: Tree, v: bytes)
    requires WellKeyed(t)
    ensures ValidKey(Widened(t, v)) && Covers(Widened(t, v), v)
    ensures forall w | Covers(KeyOf(t), w) :: Covers(Widened(t, v), w)
  {
    var ks := [KeyOf(t), Key(v, v)];
    WellKeyedIsCovered(t);
    LeqReflexive(v);
    UnionCovers(ks, 1, v);
    forall w | Covers(KeyOf(t), w) ensures Covers(Widened(t, v), w) { UnionCovers(ks, 0, w); }
  }

  /** The union of two keys covers what each of them covers. */
  lemma {:induction false} PairCovers(a: Key, b: Key, v: bytes)
    requires (ValidKey(a) && Covers(a, v)) || (ValidKey(b) && Covers(b, v))
    ensures ValidKey(UnionKey([a, b])) && Covers(UnionKey([a, b]), v)
  {
    if ValidKey(a) && Covers(a, v) { UnionCovers([a, b], 0, v); } else { UnionCovers([a, b], 1, v); }
  }

  /** However often it is cut on the way, the folded key covers what each key covers. */
  lemma {:induction false} FoldedCovers(ks: seq<Key>, n: nat, i: nat, v: bytes)
    requires i < n <= |ks| && ValidKey(ks[i]) && Covers(ks[i], v)
    ensures ValidKey(Folded(ks, n)) && Covers(Folded(ks, n), v)
  {
    if n > 1 {
      if i < n - 1 { FoldedCovers(ks, n - 1, i, v); }
      PairCovers(Folded(ks, n - 1), ks[n - 1], v);
    }
  }

  lemma RefitWellKeyed(kids: Page)
    requires |kids| > 0 && AllWellKeyed(kids)
    ensures WellKeyed(Inner(Folded(KeysOf(kids), |kids|), kids))
  {
    var ks, k := KeysOf(kids), Folded(KeysOf(kids), |kids|);
    forall i, v | 0 <= i < |kids| && Covers(KeyOf(kids[i]), v) ensures ValidKey(k) && Covers(k, v) {
      WellKeyedIsCovered(kids[i]);
      FoldedCovers(ks, |kids|, i, v);
    }
    WellKeyedIsCovered(kids[0]);
    LeqReflexive(ks[0].lower);
    FoldedCovers(ks, |kids|, 0, ks[0].lower);
    PageWellKeyed(Inner(k, kids));
  }

  lemma SideWellKeyed(near: Page, far: Page)
    requires |near| > 0 && |far| > 0 && AllWellKeyed(near) && SafeSplit(near, far)
    ensures WellKeyed(Side(near, far))
  {
    var ks, s := KeysOf(near), Side(near, far).key;
    forall i | 0 <= i < |near|
      ensures ValidKey(s) && forall v | Covers(ks[i], v) :: Covers(s, v)
    {
      assert near[i] in near;
      WellKeyedIsCovered(near[i]);
      SideIsCutHull(ks, KeysOf(far), i);
      SplitCoversIff(ks, KeysOf(far), i);
    }
    assert near[0] in near;
    PageWellKeyed(Side(near, far));
  }

  /** The two sides hold the entries of the page between them. */
  lemma DealtKeeps(kids: Page, near: Page, far: Page)
    requires Dealt(kids, near, far)
    ensures forall t :: t in kids <==> t in near || t in far
  {
    forall t ensures t in kids <==> t in near || t in far {
      assert t in kids <==> t in multiset(near + far);
    }
  }

  lemma SplitKeeps(kids: Page, near: Page, far: Page)
    requires AllWellKeyed(kids) && Dealt(kids, near, far) && SafeSplit(near, far)
    ensures AllWellKeyed([Side(near, far), Side(far, near)])
    ensures PageValues([Side(near, far), Side(far, near)]) == PageValues(kids)
  {
    DealtKeeps(kids, near, far);
    SideWellKeyed(near, far);
    SideWellKeyed(far, near);
    var both := [Side(near, far), Side(far, near)];
    forall v ensures v in PageValues(both) <==> v in PageValues(kids) {
      assert both[0] in both && both[1] in both;
      assert v in PageValues(kids) <==> v in Values(both[0]) || v in Values(both[1]);
    }
  }

  /** One entry of a page is replaced by others. */
  lemma ReplacedKeeps(kids: Page, i: nat, others: Page, after: Page)
    requires i < |kids| && after == kids[..i] + others + kids[i + 1..]
    requires AllWellKeyed(kids) && AllWellKeyed(others)
    ensures AllWellKeyed(after)
    ensures forall v ::
              v in PageValues(after) <==> v in PageValues(kids[..i] + kids[i + 1..]) || v in PageValues(others)
    ensures forall v :: v in PageValues(kids) <==> v in PageValues(kids[..i] + kids[i + 1..]) || v in Values(kids[i])
  {
    var rest := kids[..i] + kids[i + 1..];
    forall t ensures t in after <==> t in rest || t in others {}
    forall t ensures t in kids <==> t in rest || t == kids[i] {
      if t in kids { var k :| 0 <= k < |kids| && kids[k] == t; assert k != i ==> t in rest; }
    }
  }

  lemma InnerValues(t: Tree)
    requires t.Inner?
    ensures Values(t) == PageValues(t.kids)
  {
  }

  /** What one edit adds to the values of the index. */
  ghost function Added(e: Edit): set<bytes> { if e.Insert? then {e.v} else {} }

  lemma ChangeHereKeeps(kids: Page, e: Edit)
    requires AllWellKeyed(kids) && LegalHere(kids, e) && SafeEdit(e)
    ensures AllWellKeyed(ChangeHere(kids, e))
    ensures PageValues(ChangeHere(kids, e)) == PageValues(kids) + Added(e)
  {
    var after := ChangeHere(kids, e);
    match e
    case Insert(v) =>
      assert Leaf(v) in after && v in Values(Leaf(v));
    case Widen(i, v) =>
      WidenedCovers(kids[i], v);
      KeyReplaced(kids, i, Widened(kids[i], v));
    case Split(i, near, far) =>
      assert kids[i] in kids;
      InnerValues(kids[i]);
      SplitKeeps(kids[i].kids, near, far);
      ReplacedKeeps(kids, i, [Side(near, far), Side(far, near)], after);
    case Refit(i) =>
      assert kids[i] in kids;
      RefitWellKeyed(kids[i].kids);
      KeyReplaced(kids, i, Folded(KeysOf(kids[i].kids), |kids[i].kids|));
  }

  lemma KeyReplaced(kids: Page, i: nat, k: Key)
    requires AllWellKeyed(kids) && i < |kids| && kids[i].Inner? && WellKeyed(Inner(k, kids[i].kids))
    ensures AllWellKeyed(kids[i := Inner(k, kids[i].kids)])
    ensures PageValues(kids[i := Inner(k, kids[i].kids)]) == PageValues(kids)
  {
    var t := Inner(k, kids[i].kids);
    assert kids[i := t] == kids[..i] + [t] + kids[i + 1..];
    ReplacedKeeps(kids, i, [t], kids[i := t]);
    assert Values(t) == Values(kids[i]) && t in [t];
  }

  /** Every edit, however deep, keeps the tree well keyed and adds just what it inserts. */
  lemma {:induction false} ChangeKeeps(kids: Page, path: seq<nat>, e: Edit)
    requires AllWellKeyed(kids) && Legal(kids, path, e) && SafeEdit(e)
    ensures AllWellKeyed(Change(kids, path, e))
    ensures PageValues(Change(kids, path, e)) == PageValues(kids) + Added(e)
    decreases path
  {
    if path == [] {
      ChangeHereKeeps(kids, e);
    } else {
      var t := kids[path[0]];
      assert t in kids;
      ChangeKeeps(t.kids, path[1..], e);
      EntryChanged(kids, path[0], Change(t.kids, path[1..], e), e);
    }
  }

  lemma EntryChanged(kids: Page, i: nat, below: Page, e: Edit)
    requires AllWellKeyed(kids) && i < |kids| && kids[i].Inner?
    requires AllWellKeyed(below) && PageValues(below) == PageValues(kids[i].kids) + Added(e)
    ensures var k := if e.Insert? then Widened(kids[i], e.v) else kids[i].key;
            && AllWellKeyed(kids[i := Inner(k, below)])
            && PageValues(kids[i := Inner(k, below)]) == PageValues(kids) + Added(e)
  {
    var k := if e.Insert? then Widened(kids[i], e.v) else kids[i].key;
    var t := Inner(k, below);
    assert kids[i] in kids;
    InnerValues(t);
    InnerValues(kids[i]);
    if e.Insert? { WidenedCovers(kids[i], e.v); }
    assert WellKeyed(t);
    assert kids[i := t] == kids[..i] + [t] + kids[i + 1..];
    ReplacedKeeps(kids, i, [t], kids[i := t]);
    assert t in [t];
  }

  lemma StepKeeps(root: Page, step: Step)
    requires AllWellKeyed(root) && LegalStep(root, step) && SafeStep(step)
    ensures AllWellKeyed(Do(root, step))
    ensures PageValues(Do(root, step)) == PageValues(root) + if step.At? then Added(step.e) else {}
  {
    match step
    case At(path, e) => ChangeKeeps(root, path, e);
    case SplitRoot(near, far) => SplitKeeps(root, near, far);
  }

  /** After any run whose splits were safe, every key covers its values, and the values are those inserted. */
  lemma {:induction false} RunWellKeyed(run: seq<Step>)
    requires LegalRun(run) && forall step | step in run :: SafeStep(step)
    ensures AllWellKeyed(After(run)) && PageValues(After(run)) == Inserted(run)
    decreases |run|
  {
    if run != [] {
      var rest, step := run[..|run| - 1], run[|run| - 1];
      assert run == rest + [step];
      RunWellKeyed(rest);
      StepKeeps(After(rest), step);
      InsertedMore(rest, step);
    }
  }

  lemma InsertedMore(run: seq<Step>, step: Step)
    ensures Inserted(run + [step]) == Inserted(run) + if step.At? then Added(step.e) else {}
  {
    forall s ensures s in run + [step] <==> s in run || s == step {}
    var more := if step.At? then Added(step.e) else {};
    forall v | v in Inserted(run) + more ensures v in Inserted(run + [step]) {
      if v in more { assert step in run + [step]; }
    }
  }

  /** After any such run, for all six operators, a search misses nothing and invents nothing. */
  lemma RunSearchExact(run: seq<Step>, query: bytes, strategy: Strategy)
    requires LegalRun(run) && forall step | step in run :: SafeStep(step)
    ensures SearchPage(After(run), query, strategy) == set v | v in Inserted(run) && Satisfies(strategy, v, query)
  {
    RunWellKeyed(run);
    PageSearchExact(After(run), query, strategy);
  }

  lemma PageSearchExact(root: Page, query: bytes, strategy: Strategy)
    requires AllWellKeyed(root)
    ensures SearchPage(root, query, strategy) == set v | v in PageValues(root) && Satisfies(strategy, v, query)
  {
    var wanted := set v | v in PageValues(root) && Satisfies(strategy, v, query);
    forall v ensures v in SearchPage(root, query, strategy) <==> v in wanted {
      forall kid | kid in root
        ensures v in Search(kid, query, strategy) <==> v in Values(kid) && Satisfies(strategy, v, query)
      {
        SearchFinds(kid, query, strategy, v);
      }
    }
  }

  /** Splits of leaf pages are always safe: a stored value is never a cut bound. */
  lemma LeafSplitsSafe(near: Page, far: Page)
    requires |near| > 0 && |far| > 0 && (forall t | t in near :: t.Leaf?) && forall t | t in far :: t.Leaf?
    ensures SafeSplit(near, far)
  {
    forall t | t in near ensures SafeIn(KeyOf(t), Side(near, far).key) { LeqReflexive(t.value); }
    forall t | t in far ensures SafeIn(KeyOf(t), Side(far, near).key) { LeqReflexive(t.value); }
  }
}
