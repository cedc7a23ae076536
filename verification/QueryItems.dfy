/**
 * Stored queries: an array of items in postfix order with 16-bit back-links to left
 * operands, the pass that fills the links, and the evaluators that follow them.
 */
module QueryItems {
  import opened BoolQuery

  /** A postfix node with its back-link. */
  datatype Item = Item(node: Node, left: int)

  function Size(e: Expr): (n: nat)
    ensures n > 0
  {
    match e
    case Val(_) => 1
    case Not(a) => Size(a) + 1
    case And(l, r) => Size(l) + Size(r) + 1
    case Or(l, r) => Size(l) + Size(r) + 1
  }

  /** Truncation to the 16 bits of the `left` field. */
  function Wrap16(x: int): int { (x + 32768) % 65536 - 32768 }

  predicate IsBinary(e: Expr) { e.And? || e.Or? }

  function RootOp(e: Expr): Op
    requires !e.Val?
  {
    match e
    case Not(_) => Bang
    case And(_, _) => Amp
    case Or(_, _) => Bar
  }

  /** The items that end at `pos` spell `e` in postfix order. */
  predicate At(items: seq<Item>, pos: int, e: Expr) {
    0 <= pos < |items| &&
    match e
    case Val(v) => items[pos].node == NVal(v)
    case Not(a) => items[pos].node == NOpr(Bang) && At(items, pos - 1, a)
    case And(l, r) =>
      items[pos].node == NOpr(Amp) && At(items, pos - 1, r) && At(items, pos - 1 - Size(r), l)
    case Or(l, r) =>
      items[pos].node == NOpr(Bar) && At(items, pos - 1, r) && At(items, pos - 1 - Size(r), l)
  }

  /** Every link below `pos` is what the 16-bit field holds of the distance to the left operand. */
  predicate Links(items: seq<Item>, pos: int, e: Expr)
    requires At(items, pos, e)
  {
    match e
    case Val(_) => items[pos].left == 0
    case Not(a) => items[pos].left == -1 && Links(items, pos - 1, a)
    case And(l, r) =>
      items[pos].left == Wrap16(-1 - Size(r)) && Links(items, pos - 1, r) && Links(items, pos - 1 - Size(r), l)
    case Or(l, r) =>
      items[pos].left == Wrap16(-1 - Size(r)) && Links(items, pos - 1, r) && Links(items, pos - 1 - Size(r), l)
  }

  /** Every link of a binary operator leads to the last item of its left operand. */
  predicate LinksReach(items: seq<Item>, pos: int, e: Expr)
    requires At(items, pos, e)
  {
    match e
    case Val(_) => true
    case Not(a) => LinksReach(items, pos - 1, a)
    case And(l, r) =>
      items[pos].left == -1 - Size(r) && LinksReach(items, pos - 1, r) && LinksReach(items, pos - 1 - Size(r), l)
    case Or(l, r) =>
      items[pos].left == -1 - Size(r) && LinksReach(items, pos - 1, r) && LinksReach(items, pos - 1 - Size(r), l)
  }

  /** No right operand is longer than a 16-bit link can step over. */
  predicate RightsFit(e: Expr) {
    match e
    case Val(_) => true
    case Not(a) => RightsFit(a)
    case And(l, r) => Size(r) <= 32767 && RightsFit(l) && RightsFit(r)
    case Or(l, r) => Size(r) <= 32767 && RightsFit(l) && RightsFit(r)
  }

  /** The 16-bit links reach their operands if and only if every right operand fits. */
  lemma {:induction false} LinksReachIff(items: seq<Item>, pos: int, e: Expr)
    requires At(items, pos, e) && Links(items, pos, e)
    ensures LinksReach(items, pos, e) <==> RightsFit(e)
  {
    match e
    case Val(_) =>
    case Not(a) => LinksReachIff(items, pos - 1, a);
    case And(l, r) => LinksReachIff(items, pos - 1, r); LinksReachIff(items, pos - 1 - Size(r), l);
    case Or(l, r) => LinksReachIff(items, pos - 1, r); LinksReachIff(items, pos - 1 - Size(r), l);
  }

  // ----- Filling the links -----

  /** Two arrays agree on the items of a query that ends at `pos`. */
  ghost predicate Agree(s: seq<Item>, t: seq<Item>, lo: int, hi: int) {
    |s| == |t| && forall i | 0 <= i < |s| && lo < i <= hi :: s[i] == t[i]
  }

  lemma {:induction false} AtBounds(items: seq<Item>, pos: int, e: Expr)
    requires At(items, pos, e)
    ensures Size(e) <= pos + 1
  {
    match e
    case Val(_) =>
    case Not(a) => AtBounds(items, pos - 1, a);
    case And(l, r) => AtBounds(items, pos - 1 - Size(r), l);
    case Or(l, r) => AtBounds(items, pos - 1 - Size(r), l);
  }

  lemma {:induction false} AtFrame(s: seq<Item>, t: seq<Item>, pos: int, e: Expr)
    requires At(s, pos, e) && Agree(s, t, pos - Size(e), pos)
    ensures At(t, pos, e) && Links(s, pos, e) == Links(t, pos, e)
  {
    SameItems(s, t, pos, e);
    match e
    case Val(_) =>
    case Not(a) => AtFrame(s, t, pos - 1, a);
    case And(l, r) => AtFrame(s, t, pos - 1, r); AtFrame(s, t, pos - 1 - Size(r), l);
    case Or(l, r) => AtFrame(s, t, pos - 1, r); AtFrame(s, t, pos - 1 - Size(r), l);
  }

  lemma {:induction false} SameItems(s: seq<Item>, t: seq<Item>, pos: int, e: Expr)
    requires At(s, pos, e) && Agree(s, t, pos - Size(e), pos)
    ensures At(t, pos, e)
  {
    match e
    case Val(_) =>
    case Not(a) => SameItems(s, t, pos - 1, a);
    case And(l, r) => SameItems(s, t, pos - 1, r); SameItems(s, t, pos - 1 - Size(r), l);
    case Or(l, r) => SameItems(s, t, pos - 1, r); SameItems(s, t, pos - 1 - Size(r), l);
  }

  /** Changing links does not change what the items spell. */
  lemma {:induction false} AtIgnoresLinks(s: seq<Item>, t: seq<Item>, pos: int, e: Expr)
    requires At(s, pos, e) && |s| == |t|
    requires forall i | 0 <= i < |s| :: t[i] == s[i].(left := t[i].left)
    ensures At(t, pos, e)
  {
    match e
    case Val(_) =>
    case Not(a) => AtIgnoresLinks(s, t, pos - 1, a);
    case And(l, r) => AtIgnoresLinks(s, t, pos - 1, r); AtIgnoresLinks(s, t, pos - 1 - Size(r), l);
    case Or(l, r) => AtIgnoresLinks(s, t, pos - 1, r); AtIgnoresLinks(s, t, pos - 1 - Size(r), l);
  }

  /** Only links changed, and only those of the query that ends at `pos`. */
  ghost predicate Relinked(s: seq<Item>, t: seq<Item>, pos: int, e: Expr) {
    && Agree(s, t, -1, pos - Size(e)) && Agree(s, t, pos, |s|)
    && forall i | 0 <= i < |s| :: t[i] == s[i].(left := t[i].left)
  }

  method FindOprnd(ptr: array<Item>, pos: int, ghost e: Expr) returns (pos': int)
    requires At(ptr[..], pos, e)
    modifies ptr
    ensures pos' == pos - Size(e) && Relinked(old(ptr[..]), ptr[..], pos, e)
    ensures At(ptr[..], pos, e) && Links(ptr[..], pos, e)
    decreases pos, 1
  {
    if ptr[pos].node.NVal? {
      ptr[pos] := ptr[pos].(left := 0);
      pos' := pos - 1;
    } else if ptr[pos].node.op == Bang {
      ghost var s0 := ptr[..];
      ptr[pos] := ptr[pos].(left := -1);
      AtIgnoresLinks(s0, ptr[..], pos, e);
      pos' := FindOprnd(ptr, pos - 1, e.e);
    } else {
      pos' := FindBothOprnds(ptr, pos, e);
    }
  }

  /** The branch of `findoprnd` for `&` and `|`: right operand, own link, left operand. */
  method FindBothOprnds(ptr: array<Item>, pos: int, ghost e: Expr) returns (pos': int)
    requires At(ptr[..], pos, e) && IsBinary(e)
    modifies ptr
    ensures pos' == pos - Size(e) && Relinked(old(ptr[..]), ptr[..], pos, e)
    ensures At(ptr[..], pos, e) && Links(ptr[..], pos, e)
    decreases pos, 0
  {
    ghost var s0 := ptr[..];
    pos' := FindOprnd(ptr, pos - 1, e.r);
    ghost var s1 := ptr[..];
    ptr[pos] := ptr[pos].(left := Wrap16(pos' - pos));
    ghost var s2 := ptr[..];
    LeftStillSpelled(s0, s1, s2, pos, e);
    pos' := FindOprnd(ptr, pos', e.l);
    BothLinked(s0, s1, s2, ptr[..], pos, e);
  }

  /** Neither the right operand's links nor the operator's own disturb the left operand. */
  lemma LeftStillSpelled(s0: seq<Item>, s1: seq<Item>, s2: seq<Item>, pos: int, e: Expr)
    requires IsBinary(e) && At(s0, pos, e) && Relinked(s0, s1, pos - 1, e.r)
    requires s2 == s1[pos := s1[pos].(left := Wrap16(-1 - Size(e.r)))]
    ensures At(s2, pos - 1 - Size(e.r), e.l)
  {
    AtIgnoresLinks(s0, s2, pos - 1 - Size(e.r), e.l);
  }

  lemma BothLinked(s0: seq<Item>, s1: seq<Item>, s2: seq<Item>, s3: seq<Item>, pos: int, e: Expr)
    requires IsBinary(e) && At(s0, pos, e)
    requires Relinked(s0, s1, pos - 1, e.r) && At(s1, pos - 1, e.r) && Links(s1, pos - 1, e.r)
    requires s2 == s1[pos := s1[pos].(left := Wrap16(-1 - Size(e.r)))]
    requires Relinked(s2, s3, pos - 1 - Size(e.r), e.l)
    requires At(s3, pos - 1 - Size(e.r), e.l) && Links(s3, pos - 1 - Size(e.r), e.l)
    ensures Relinked(s0, s3, pos, e) && At(s3, pos, e) && Links(s3, pos, e)
  {
    AtFrame(s1, s3, pos - 1, e.r);
    assert s3[pos] == s2[pos];
  }

  // ----- Evaluation -----

  /** Links lead strictly to the left and stay inside the array. */
  predicate Navigable(items: seq<Item>, pos: int) {
    pos < |items| &&
    forall i | 0 <= i <= pos && items[i].node.NOpr? ::
      i >= 1 && (items[i].node.op != Bang ==> 0 <= i + items[i].left < i)
  }

  /** `execute`: the truth of each value item comes from the caller's check function. */
  predicate Execute(items: seq<Item>, pos: int, calcnot: bool, truth: seq<bool>)
    requires 0 <= pos && Navigable(items, pos) && |truth| == |items|
    decreases pos
  {
    match items[pos].node
    case NVal(_) => truth[pos]
    case NOpr(Bang) => if calcnot then !Execute(items, pos - 1, calcnot, truth) else true
    case NOpr(Amp) => Execute(items, pos + items[pos].left, calcnot, truth) && Execute(items, pos - 1, calcnot, truth)
    case NOpr(Bar) => Execute(items, pos + items[pos].left, calcnot, truth) || Execute(items, pos - 1, calcnot, truth)
  }

  predicate ContainsRequiredValue(items: seq<Item>, pos: int)
    requires 0 <= pos && Navigable(items, pos)
    decreases pos
  {
    match items[pos].node
    case NVal(_) => true
    case NOpr(Bang) => false
    case NOpr(Amp) => ContainsRequiredValue(items, pos + items[pos].left) || ContainsRequiredValue(items, pos - 1)
    case NOpr(Bar) => ContainsRequiredValue(items, pos + items[pos].left) && ContainsRequiredValue(items, pos - 1)
  }

  /** The items of a query with reaching links, all of them, can be navigated. */
  lemma {:induction false} ReachingIsNavigable(items: seq<Item>, pos: int, e: Expr, i: int)
    requires At(items, pos, e) && LinksReach(items, pos, e)
    requires 0 <= i && pos - Size(e) < i <= pos && items[i].node.NOpr?
    ensures i >= 1 && (items[i].node.op != Bang ==> 0 <= i + items[i].left < i)
  {
    match e
    case Val(_) =>
    case Not(a) => if i < pos { ReachingIsNavigable(items, pos - 1, a, i); }
    case And(l, r) => NavigateBinary(items, pos, l, r, i, e);
    case Or(l, r) => NavigateBinary(items, pos, l, r, i, e);
  }

  lemma {:induction false} NavigateBinary(items: seq<Item>, pos: int, l: Expr, r: Expr, i: int, e: Expr)
    requires e == And(l, r) || e == Or(l, r)
    requires At(items, pos, e) && LinksReach(items, pos, e)
    requires 0 <= i && pos - Size(e) < i <= pos && items[i].node.NOpr?
    ensures i >= 1 && (items[i].node.op != Bang ==> 0 <= i + items[i].left < i)
  {
    AtBounds(items, pos - 1 - Size(r), l);
    if i < pos - Size(r) {
      ReachingIsNavigable(items, pos - 1 - Size(r), l, i);
    } else if i < pos {
      ReachingIsNavigable(items, pos - 1, r, i);
    }
  }

  /** Items hold a query when they spell it from the first to the last and their links reach. */
  ghost predicate Holds(items: seq<Item>, e: Expr) {
    |items| == Size(e) && At(items, |items| - 1, e) && LinksReach(items, |items| - 1, e)
  }

  lemma HoldsNavigable(items: seq<Item>, e: Expr)
    requires Holds(items, e)
    ensures Navigable(items, |items| - 1)
  {
    forall i | 0 <= i <= |items| - 1 && items[i].node.NOpr?
      ensures i >= 1 && (items[i].node.op != Bang ==> 0 <= i + items[i].left < i)
    {
      ReachingIsNavigable(items, |items| - 1, e, i);
    }
  }

  /** Truth values that say of each value item whether the set contains it. */
  ghost predicate Truthful(items: seq<Item>, truth: seq<bool>, s: set<int>) {
    |truth| == |items| && forall i | 0 <= i < |items| && items[i].node.NVal? :: truth[i] == (items[i].node.v in s)
  }

  /** Truth values that are at least true where the set contains the value. */
  ghost predicate Generous(items: seq<Item>, truth: seq<bool>, s: set<int>) {
    |truth| == |items| && forall i | 0 <= i < |items| && items[i].node.NVal? && items[i].node.v in s :: truth[i]
  }

  /** Following the links computes the meaning of the query. */
  lemma {:induction false} ExecuteIsMeaning(items: seq<Item>, pos: int, e: Expr, truth: seq<bool>, s: set<int>)
    requires At(items, pos, e) && LinksReach(items, pos, e) && Navigable(items, pos) && Truthful(items, truth, s)
    ensures Execute(items, pos, true, truth) == Meaning(e, s)
  {
    match e
    case Val(_) =>
    case Not(a) => ExecuteIsMeaning(items, pos - 1, a, truth, s);
    case And(l, r) =>
      ExecuteIsMeaning(items, pos - 1, r, truth, s); ExecuteIsMeaning(items, pos - 1 - Size(r), l, truth, s);
    case Or(l, r) =>
      ExecuteIsMeaning(items, pos - 1, r, truth, s); ExecuteIsMeaning(items, pos - 1 - Size(r), l, truth, s);
  }

  /** What is asked of a set if every negation is taken as true. */
  predicate Lenient(e: Expr, s: set<int>) {
    match e
    case Val(v) => v in s
    case Not(_) => true
    case And(l, r) => Lenient(l, s) && Lenient(r, s)
    case Or(l, r) => Lenient(l, s) || Lenient(r, s)
  }

  predicate NegationFree(e: Expr) {
    match e
    case Val(_) => true
    case Not(_) => false
    case And(l, r) => NegationFree(l) && NegationFree(r)
    case Or(l, r) => NegationFree(l) && NegationFree(r)
  }

  /** Without negations it is the meaning; with them it is met by every superset of a set that satisfies the query. */
  lemma {:induction false} LenientIs(e: Expr, s: set<int>, t: set<int>)
    requires s <= t
    ensures Meaning(e, s) ==> Lenient(e, t)
    ensures NegationFree(e) ==> (Lenient(e, s) <==> Meaning(e, s))
  {
    match e
    case Val(_) =>
    case Not(_) =>
    case And(l, r) => LenientIs(l, s, t); LenientIs(r, s, t);
    case Or(l, r) => LenientIs(l, s, t); LenientIs(r, s, t);
  }

  /** Evaluation without negations computes exactly that. */
  lemma {:induction false} ExecuteIsLenient(items: seq<Item>, pos: int, e: Expr, truth: seq<bool>, s: set<int>)
    requires At(items, pos, e) && LinksReach(items, pos, e) && Navigable(items, pos) && Truthful(items, truth, s)
    ensures Execute(items, pos, false, truth) == Lenient(e, s)
  {
    match e
    case Val(_) =>
    case Not(_) =>
    case And(l, r) =>
      ExecuteIsLenient(items, pos - 1, r, truth, s); ExecuteIsLenient(items, pos - 1 - Size(r), l, truth, s);
    case Or(l, r) =>
      ExecuteIsLenient(items, pos - 1, r, truth, s); ExecuteIsLenient(items, pos - 1 - Size(r), l, truth, s);
  }

  /** Generous checks never reject what is asked. */
  lemma {:induction false} GenerousIsLenient(items: seq<Item>, pos: int, e: Expr, truth: seq<bool>, s: set<int>)
    requires At(items, pos, e) && LinksReach(items, pos, e) && Navigable(items, pos) && Generous(items, truth, s)
    ensures Lenient(e, s) ==> Execute(items, pos, false, truth)
  {
    match e
    case Val(_) =>
    case Not(_) =>
    case And(l, r) =>
      GenerousIsLenient(items, pos - 1, r, truth, s); GenerousIsLenient(items, pos - 1 - Size(r), l, truth, s);
    case Or(l, r) =>
      GenerousIsLenient(items, pos - 1, r, truth, s); GenerousIsLenient(items, pos - 1 - Size(r), l, truth, s);
  }

  /** A value is required exactly if the empty set does not meet the query with negations taken as true. */
  lemma {:induction false} RequiredIff(items: seq<Item>, pos: int, e: Expr)
    requires At(items, pos, e) && LinksReach(items, pos, e) && Navigable(items, pos)
    ensures ContainsRequiredValue(items, pos) <==> !Lenient(e, {})
  {
    match e
    case Val(_) =>
    case Not(_) =>
    case And(l, r) =>
      RequiredIff(items, pos - 1, r); RequiredIff(items, pos - 1 - Size(r), l);
    case Or(l, r) =>
      RequiredIff(items, pos - 1, r); RequiredIff(items, pos - 1 - Size(r), l);
  }

  /** With negations taken as true and generous checks, no satisfied query is rejected. */
  lemma {:induction false} ExecuteNeverRejects(items: seq<Item>, pos: int, e: Expr, truth: seq<bool>, s: set<int>)
    requires At(items, pos, e) && LinksReach(items, pos, e) && Navigable(items, pos) && Generous(items, truth, s)
    requires Meaning(e, s)
    ensures Execute(items, pos, false, truth)
  {
    match e
    case Val(_) =>
    case Not(_) =>
    case And(l, r) =>
      ExecuteNeverRejects(items, pos - 1, r, truth, s); ExecuteNeverRejects(items, pos - 1 - Size(r), l, truth, s);
    case Or(l, r) =>
      if Meaning(l, s) {
        ExecuteNeverRejects(items, pos - 1 - Size(r), l, truth, s);
      } else {
        ExecuteNeverRejects(items, pos - 1, r, truth, s);
      }
  }

  /** A query with a required value is satisfied only by sets that contain one of its values. */
  lemma {:induction false} RequiredIsRequired(items: seq<Item>, pos: int, e: Expr, s: set<int>) returns (i: int)
    requires At(items, pos, e) && LinksReach(items, pos, e) && Navigable(items, pos)
    requires ContainsRequiredValue(items, pos) && Meaning(e, s)
    ensures 0 <= i <= pos && items[i].node.NVal? && items[i].node.v in s
  {
    match e
    case Val(_) => i := pos;
    case And(l, r) =>
      if ContainsRequiredValue(items, pos + items[pos].left) {
        i := RequiredIsRequired(items, pos - 1 - Size(r), l, s);
      } else {
        i := RequiredIsRequired(items, pos - 1, r, s);
      }
    case Or(l, r) =>
      if Meaning(l, s) {
        i := RequiredIsRequired(items, pos - 1 - Size(r), l, s);
      } else {
        i := RequiredIsRequired(items, pos - 1, r, s);
      }
  }
}
