/**
 * Which entries of a tree over variable-length keys are always found, whether its splits were
 * safe or not, and a run that loses a value.
 */
module BtreeGistReach {
  import opened Bytea
  import opened BtreeGistVar
  import opened BtreeGistTree

  // ----- Which entries are always found -----

  /** The path leads to a leaf entry. */
  predicate LeafAt(kids: Page, path: seq<nat>)
    decreases path
  {
    && path != [] && path[0] < |kids|
    && if |path| == 1 then kids[path[0]].Leaf?
       else kids[path[0]].Inner? && LeafAt(kids[path[0]].kids, path[1..])
  }

  function ValueAt(kids: Page, path: seq<nat>): bytes
    requires LeafAt(kids, path)
    decreases path
  {
    if |path| == 1 then kids[path[0]].value else ValueAt(kids[path[0]].kids, path[1..])
  }

  /** Every test on the way to the leaf entry, and that of the entry itself, lets a search through. */
  predicate Reached(kids: Page, path: seq<nat>, query: bytes, strategy: Strategy)
    requires LeafAt(kids, path)
    decreases path
  {
    if |path| == 1 then Consistent(KeyOf(kids[path[0]]), query, strategy, true)
    else
      && Consistent(kids[path[0]].key, query, strategy, false)
      && Reached(kids[path[0]].kids, path[1..], query, strategy)
  }

  lemma InnerSearch(t: Tree, query: bytes, strategy: Strategy)
    requires t.Inner?
    ensures Search(t, query, strategy)
            == if Consistent(t.key, query, strategy, false) then SearchPage(t.kids, query, strategy) else {}
  {
  }

  /** A search finds the values of the leaf entries that it reaches. */
  lemma {:induction false} SearchIsReached(kids: Page, path: seq<nat>, query: bytes, strategy: Strategy)
    requires LeafAt(kids, path) && Reached(kids, path, query, strategy)
    ensures ValueAt(kids, path) in SearchPage(kids, query, strategy)
    decreases path
  {
    var t := kids[path[0]];
    assert t in kids;
    if |path| > 1 {
      SearchIsReached(t.kids, path[1..], query, strategy);
      InnerSearch(t, query, strategy);
    }
    assert ValueAt(kids, path) in Search(t, query, strategy);
  }

  lemma {:induction false} FoundIsReached(kids: Page, query: bytes, strategy: Strategy, v: bytes)
    returns (path: seq<nat>)
    requires v in SearchPage(kids, query, strategy)
    ensures LeafAt(kids, path) && ValueAt(kids, path) == v && Reached(kids, path, query, strategy)
    decreases kids
  {
    var t :| t in kids && v in Search(t, query, strategy);
    var i: nat :| i < |kids| && kids[i] == t;
    path := [i];
    if t.Inner? {
      InnerSearch(t, query, strategy);
      var rest := FoundIsReached(t.kids, query, strategy, v);
      path := [i] + rest;
      assert path[1..] == rest;
    }
  }

  /** The value is within reach of every key above the leaf entry. */
  predicate KeysReach(kids: Page, path: seq<nat>)
    requires LeafAt(kids, path)
    decreases path
  {
    |path| == 1 || (WithinReach(kids[path[0]].key, ValueAt(kids, path)) && KeysReach(kids[path[0]].kids, path[1..]))
  }

  /** Every inner key is a valid interval. */
  ghost predicate Valid(t: Tree) { t.Inner? ==> ValidKey(t.key) && forall kid | kid in t.kids :: Valid(kid) }

  ghost predicate AllValid(kids: Page) { forall kid | kid in kids :: Valid(kid) }

  lemma WidenedValid(t: Tree, v: bytes)
    requires Valid(t)
    ensures ValidKey(Widened(t, v))
  {
    LeqReflexive(v);
    UnionCovers([KeyOf(t), Key(v, v)], 1, v);
  }

  lemma SideValid(near: Page, far: Page)
    requires |near| > 0 && |far| > 0 && AllValid(near)
    ensures Valid(Side(near, far))
  {
    assert near[0] in near;
    if near[0].Leaf? { LeqReflexive(near[0].value); }
    SideIsCutHull(KeysOf(near), KeysOf(far), 0);
  }

  lemma RefitValid(kids: Page)
    requires |kids| > 0 && AllValid(kids)
    ensures Valid(Inner(Folded(KeysOf(kids), |kids|), kids))
  {
    assert kids[0] in kids;
    var ks := KeysOf(kids);
    if kids[0].Leaf? { LeqReflexive(kids[0].value); }
    LeqReflexive(ks[0].lower);
    FoldedCovers(ks, |kids|, 0, ks[0].lower);
  }

  lemma ChangeHereValid(kids: Page, e: Edit)
    requires AllValid(kids) && LegalHere(kids, e)
    ensures AllValid(ChangeHere(kids, e))
  {
    match e
    case Insert(v) =>
    case Widen(i, v) =>
      assert kids[i] in kids;
      WidenedValid(kids[i], v);
    case Split(i, near, far) =>
      assert kids[i] in kids;
      DealtKeeps(kids[i].kids, near, far);
      SideValid(near, far);
      SideValid(far, near);
    case Refit(i) =>
      assert kids[i] in kids;
      RefitValid(kids[i].kids);
  }

  lemma {:induction false} ChangeValid(kids: Page, path: seq<nat>, e: Edit)
    requires AllValid(kids) && Legal(kids, path, e)
    ensures AllValid(Change(kids, path, e))
    decreases path
  {
    if path == [] {
      ChangeHereValid(kids, e);
    } else {
      var t := kids[path[0]];
      assert t in kids;
      ChangeValid(t.kids, path[1..], e);
      if e.Insert? { WidenedValid(t, e.v); }
    }
  }

  /** Whether its splits were safe or not, every run leaves valid keys. */
  lemma {:induction false} RunValid(run: seq<Step>)
    requires LegalRun(run)
    ensures AllValid(After(run))
    decreases |run|
  {
    if run != [] {
      var rest, step := run[..|run| - 1], run[|run| - 1];
      RunValid(rest);
      match step
      case At(path, e) => ChangeValid(After(rest), path, e);
      case SplitRoot(near, far) =>
        DealtKeeps(After(rest), near, far);
        SideValid(near, far);
        SideValid(far, near);
    }
  }

  /** Every search that the value satisfies reaches its entry. */
  ghost predicate AlwaysReached(kids: Page, path: seq<nat>)
    requires LeafAt(kids, path)
  {
    forall query, strategy | Satisfies(strategy, ValueAt(kids, path), query) :: Reached(kids, path, query, strategy)
  }

  /** All searches find an entry if and only if its value is within reach of the keys above it. */
  lemma {:induction false} AlwaysReachedIff(kids: Page, path: seq<nat>)
    requires AllValid(kids) && LeafAt(kids, path)
    ensures AlwaysReached(kids, path) <==> KeysReach(kids, path)
    decreases path
  {
    var t, v := kids[path[0]], ValueAt(kids, path);
    if |path| == 1 {
      forall query, strategy | Satisfies(strategy, v, query) ensures Reached(kids, path, query, strategy) {
        LeafExact(v, query, strategy);
      }
    } else {
      assert t in kids;
      NeverRejectsIff(t.key, v);
      AlwaysReachedIff(t.kids, path[1..]);
      AlwaysBelow(kids, path);
    }
  }

  /** After any run at all, an entry is found by all searches exactly in this case. */
  lemma RunReachedIff(run: seq<Step>, path: seq<nat>)
    requires LegalRun(run) && LeafAt(After(run), path)
    ensures AlwaysReached(After(run), path) <==> KeysReach(After(run), path)
  {
    RunValid(run);
    AlwaysReachedIff(After(run), path);
  }

  lemma AlwaysBelow(kids: Page, path: seq<nat>)
    requires LeafAt(kids, path) && |path| > 1
    ensures AlwaysReached(kids, path)
            <==> NeverRejects(kids[path[0]].key, ValueAt(kids, path)) && AlwaysReached(kids[path[0]].kids, path[1..])
  {
    var t, v := kids[path[0]], ValueAt(kids, path);
    if AlwaysReached(kids, path) {
      forall query, strategy | Satisfies(strategy, v, query)
        ensures Consistent(t.key, query, strategy, false) && Reached(t.kids, path[1..], query, strategy)
      {
        assert Reached(kids, path, query, strategy);
      }
    }
  }

  // ----- A run that loses a value -----

  lemma {:induction false} SearchWithin(t: Tree, query: bytes, strategy: Strategy, v: bytes)
    requires v in Search(t, query, strategy)
    ensures v in Values(t)
  {
    if t.Inner? {
      var kid :| kid in t.kids && v in Search(kid, query, strategy);
      SearchWithin(kid, query, strategy, v);
    }
  }

  /** The key that a page of two stored values gets when the second is inserted. */
  function PairKey(a: bytes, b: bytes): Key { NodeTruncate(Key(a, b), Lcp(a, b) + 1) }

  function Pair(a: bytes, b: bytes): Tree { Inner(PairKey(a, b), [Leaf(a), Leaf(b)]) }

  function Single(a: bytes): Tree { Inner(Key(a, a), [Leaf(a)]) }

  lemma HullOfPair(ks: seq<Key>)
    requires |ks| == 2
    ensures Hull(ks) == Join(ks[0], ks[1])
  {
    assert HullOf(ks, 1) == ks[0];
  }

  lemma WidenedSingle(a: bytes, b: bytes)
    requires Leq(a, b)
    ensures Widened(Single(a), b) == PairKey(a, b)
  {
    LeqTotal(a, b);
    CmpZero(a, b);
    HullOfPair([Key(a, a), Key(b, b)]);
  }

  lemma SingleSide(a: bytes, b: bytes)
    ensures Side([Leaf(a)], [Leaf(b)]) == Single(a)
  {
    LcpIs(a, a, |a|);
    assert KeysOf([Leaf(a)]) == [Key(a, a)] && KeysOf([Leaf(b)]) == [Key(b, b)];
  }

  lemma Extend(run: seq<Step>, step: Step)
    requires LegalRun(run) && LegalStep(After(run), step)
    ensures LegalRun(run + [step]) && After(run + [step]) == Do(After(run), step)
  {
    assert (run + [step])[..|run|] == run;
  }

  /** Four pages with one value each, after four inserts and three splits. */
  lemma FourSingles(a: bytes, c: bytes, e: bytes) returns (run: seq<Step>)
    requires Less(a, c) && Less(c, e)
    ensures LegalRun(run) && After(run) == [Single(a), Single(c), Single(e), Single(e)] && |run| == 7
  {
    run := [];
    run := Append(run, [], [Leaf(a)], At([], Insert(a)));
    run := Append(run, [Leaf(a)], [Leaf(a), Leaf(c)], At([], Insert(c)));
    run := Append(run, [Leaf(a), Leaf(c)], [Leaf(a), Leaf(c), Leaf(e)], At([], Insert(e)));
    var leaves := [Leaf(a), Leaf(c), Leaf(e), Leaf(e)];
    run := Append(run, [Leaf(a), Leaf(c), Leaf(e)], leaves, At([], Insert(e)));
    run := SplitLeaves(run, a, c, e);
  }

  lemma Append(run: seq<Step>, before: Page, after: Page, step: Step) returns (longer: seq<Step>)
    requires LegalRun(run) && After(run) == before && LegalStep(before, step) && Do(before, step) == after
    ensures LegalRun(longer) && After(longer) == after && longer == run + [step]
  {
    Extend(run, step);
    longer := run + [step];
  }

  /** Four leaf entries are dealt to four pages. */
  lemma SplitLeaves(run: seq<Step>, a: bytes, c: bytes, e: bytes) returns (longer: seq<Step>)
    requires LegalRun(run) && After(run) == [Leaf(a), Leaf(c), Leaf(e), Leaf(e)] && Less(a, c) && Less(c, e)
    ensures LegalRun(longer) && After(longer) == [Single(a), Single(c), Single(e), Single(e)] && |longer| == |run| + 3
  {
    var l, r := [Leaf(a), Leaf(c)], [Leaf(e), Leaf(e)];
    TwoAndTwo(Leaf(a), Leaf(c), Leaf(e));
    longer := Append(run, After(run), [Side(l, r), Side(r, l)], SplitRoot(l, r));
    LeqReflexive(e);
    longer := SplitTwo(longer, 0, a, c);
    longer := SplitTwo(longer, 2, e, e);
  }

  lemma TwoAndTwo(x: Tree, y: Tree, z: Tree)
    requires KeyLeq(KeyOf(x), KeyOf(y)) && KeyLeq(KeyOf(y), KeyOf(z))
    ensures Dealt([x, y, z, z], [x, y], [z, z])
  {
    KeyLeqTotal(KeyOf(z), KeyOf(z));
    assert Ascending([x, y, z, z]);
    assert [x, y] + [z, z] == [x, y, z, z];
  }

  /** A page of two leaf entries is split. */
  lemma SplitTwo(run: seq<Step>, i: nat, a: bytes, b: bytes) returns (longer: seq<Step>)
    requires LegalRun(run) && i < |After(run)| && After(run)[i].Inner? && After(run)[i].kids == [Leaf(a), Leaf(b)]
    requires Less(a, b) || a == b
    ensures LegalRun(longer) && |longer| == |run| + 1
    ensures After(longer) == After(run)[..i] + [Single(a), Single(b)] + After(run)[i + 1..]
  {
    LeqReflexive(a);
    assert [Leaf(a)] + [Leaf(b)] == [Leaf(a), Leaf(b)];
    SingleSide(a, b);
    SingleSide(b, a);
    var e := Split(i, [Leaf(a)], [Leaf(b)]);
    assert LegalHere(After(run), e);
    longer := Append(run, After(run), ChangeHere(After(run), e), At([], e));
  }

  /** A second value goes into page `i`. */
  lemma SecondValue(run: seq<Step>, i: nat, a: bytes, b: bytes) returns (longer: seq<Step>)
    requires LegalRun(run) && i < |After(run)| && After(run)[i] == Single(a) && Leq(a, b)
    ensures LegalRun(longer) && After(longer) == After(run)[i := Pair(a, b)] && |longer| == |run| + 1
  {
    WidenedSingle(a, b);
    var path, kids := [i], [Leaf(a)];
    assert path[1..] == [] && Legal(kids, [], Insert(b)) && Change(kids, [], Insert(b)) == [Leaf(a), Leaf(b)];
    assert Legal(After(run), path, Insert(b));
    longer := Append(run, After(run), After(run)[i := Pair(a, b)], At(path, Insert(b)));
  }

  lemma FourPairs(a: bytes, b: bytes, c: bytes, d: bytes, e: bytes, f: bytes) returns (run: seq<Step>)
    requires Less(a, c) && Less(c, e) && Leq(a, b) && Leq(c, d) && Leq(e, f)
    ensures LegalRun(run) && After(run) == [Pair(a, b), Pair(c, d), Pair(e, f), Pair(e, f)] && |run| == 11
  {
    run := FourSingles(a, c, e);
    run := SecondValue(run, 0, a, b);
    run := SecondValue(run, 1, c, d);
    run := SecondValue(run, 2, e, f);
    run := SecondValue(run, 3, e, f);
  }

  /** "aa" and "abczz" | "abca" and "abcd" || "abce1" and "abce2", twice. */
  lemma LossyKeys(low: bytes, lost: bytes, mid1: bytes, mid2: bytes, far1: bytes, far2: bytes)
    requires low == [97, 97] && lost == [97, 98, 99, 122, 122]
    requires mid1 == [97, 98, 99, 97] && mid2 == [97, 98, 99, 100]
    requires far1 == [97, 98, 99, 101, 49] && far2 == [97, 98, 99, 101, 50]
    ensures Leq(low, lost) && Leq(mid1, mid2) && Leq(far1, far2) && Less(low, mid1) && Less(mid1, far1)
    ensures Join(PairKey(low, lost), PairKey(mid1, mid2)) == Key(low, mid2)
    ensures CpLen(Key(low, mid2)) == 1
    ensures Join(PairKey(far1, far2), PairKey(far1, far2)) == Key(far1, far2)
    ensures CpLen(Key(far1, far2)) == 4
    ensures !Consistent(Key(low, mid2), lost, Equal, false)
    ensures KeyLeq(PairKey(low, lost), PairKey(mid1, mid2)) && KeyLeq(PairKey(mid1, mid2), PairKey(far1, far2))
  {
    LcpIs(lost, mid2, 3);
    assert lost[1] != low[1] && lost[3] != mid2[3];
    LcpIs(low, lost, 1);
    LcpIs(mid1, mid2, 3);
    LcpIs(far1, far2, 4);
    assert PairKey(low, lost) == Key(low, lost[..3]);
    LcpIs(low, mid1, 1);
    LcpIs(lost[..3], mid2, 3);
    LcpIs(low, mid2, 1);
    LcpIs(mid1, far1, 3);
    assert PairKey(mid1, mid2).lower == mid1 && PairKey(far1, far2).lower == far1;
  }

  /** A split that keeps too much of its near side, whichever the bytes are. */
  lemma KeepingTooMuch(a: bytes, b: bytes, c: bytes, d: bytes, e: bytes, f: bytes)
    requires Join(PairKey(a, b), PairKey(c, d)) == Key(a, d)
    requires Join(PairKey(e, f), PairKey(e, f)) == Key(e, f)
    requires |a| <= KeepLen(Key(a, d), Key(e, f)) && |d| <= KeepLen(Key(a, d), Key(e, f))
    ensures Side([Pair(a, b), Pair(c, d)], [Pair(e, f), Pair(e, f)]).key == Key(a, d)
  {
    HullOfPair(KeysOf([Pair(a, b), Pair(c, d)]));
    HullOfPair(KeysOf([Pair(e, f), Pair(e, f)]));
  }

  /** A value below a key that rejects it, and nowhere else, is lost. */
  lemma LostBelow(s: Tree, t: Tree, v: bytes)
    requires s.Inner? && !Consistent(s.key, v, Equal, false) && v in Values(s) && v !in Values(t)
    ensures v in PageValues([s, t]) && v !in SearchPage([s, t], v, Equal)
  {
    assert s in [s, t];
    if v in SearchPage([s, t], v, Equal) {
      var kid :| kid in [s, t] && v in Search(kid, v, Equal);
      SearchWithin(kid, v, Equal, v);
    }
  }

  lemma PairValues(a: bytes, b: bytes, v: bytes)
    ensures v in Values(Pair(a, b)) <==> v == a || v == b
  {
    var kids := Pair(a, b).kids;
    assert kids[0] in kids && kids[1] in kids;
    assert v in Values(Leaf(a)) <==> v == a;
    assert v in Values(Leaf(b)) <==> v == b;
  }

  lemma SideOfPairs(x: Tree, y: Tree, far: Page, v: bytes)
    requires |far| > 0
    ensures v in Values(Side([x, y], far)) <==> v in Values(x) || v in Values(y)
  {
    var kids := Side([x, y], far).kids;
    assert kids[0] in kids && kids[1] in kids;
  }

  /**
   * After twelve steps, a stored value that an equality search for it does not find. The far
   * side's common prefix is longer, so the near side keeps "abcd" whole as its upper bound; it
   * neither bounds nor prefixes "abczz", which sits below an entry whose bound was cut to "abc".
   */
  lemma SplitLosesValue() returns (run: seq<Step>, v: bytes)
    ensures LegalRun(run) && |run| == 12
    ensures v in PageValues(After(run)) && v !in SearchPage(After(run), v, Equal)
  {
    var low: bytes, lost: bytes := [97, 97], [97, 98, 99, 122, 122];
    var mid1: bytes, mid2: bytes := [97, 98, 99, 97], [97, 98, 99, 100];
    var far1: bytes, far2: bytes := [97, 98, 99, 101, 49], [97, 98, 99, 101, 50];
    LossyKeys(low, lost, mid1, mid2, far1, far2);
    run := FourPairs(low, lost, mid1, mid2, far1, far2);
    v := lost;
    TwoAndTwo(Pair(low, lost), Pair(mid1, mid2), Pair(far1, far2));
    KeepingTooMuch(low, lost, mid1, mid2, far1, far2);
    var near, far := [Pair(low, lost), Pair(mid1, mid2)], [Pair(far1, far2), Pair(far1, far2)];
    PairValues(low, lost, lost);
    SideOfPairs(Pair(low, lost), Pair(mid1, mid2), far, lost);
    PairValues(far1, far2, lost);
    SideOfPairs(Pair(far1, far2), Pair(far1, far2), near, lost);
    LostBelow(Side(near, far), Side(far, near), lost);
    run := Append(run, After(run), [Side(near, far), Side(far, near)], SplitRoot(near, far));
  }
}
