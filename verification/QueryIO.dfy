/**
 * Queries in and out of storage: `bqarr_in`, `bqarr_out`, evaluation against arrays and
 * the GIN support functions.
 */
module QueryIO {
  import opened Machine
  import opened BoolQuery
  import opened QueryText
  import opened QueryParser
  import opened QueryItems
  import opened QueryPrint

  /** Items that fit into the largest allocation, less the header, at eight bytes each. */
  const QUERYTYPEMAXITEMS := (MAX_ALLOC - 8) / 8

  datatype InResult = Query(items: seq<Item>) | BadSyntax | StatementTooComplex | TooManyItems

  // ----- Input -----

  lemma {:induction false} PostLength(e: Expr)
    ensures |Post(e)| == Size(e)
  {
    match e
    case Val(_) =>
    case Not(a) => PostLength(a);
    case And(l, r) => PostLength(l); PostLength(r);
    case Or(l, r) => PostLength(l); PostLength(r);
  }

  ghost predicate Spells(items: seq<Item>, from: int, nodes: seq<Node>) {
    0 <= from && from + |nodes| <= |items| && forall i | 0 <= i < |nodes| :: items[from + i].node == nodes[i]
  }

  lemma SpellsParts(items: seq<Item>, from: int, a: seq<Node>, b: seq<Node>)
    requires Spells(items, from, a + b)
    ensures Spells(items, from, a) && Spells(items, from + |a|, b)
  {
    forall i | 0 <= i < |a| ensures items[from + i].node == a[i] { assert (a + b)[i] == a[i]; }
    forall i | 0 <= i < |b| ensures items[from + |a| + i].node == b[i] { assert (a + b)[|a| + i] == b[i]; }
  }

  /** An array that holds the postfix form of a query spells the query. */
  lemma {:induction false} PostSpells(items: seq<Item>, from: int, e: Expr)
    requires Spells(items, from, Post(e))
    ensures At(items, from + Size(e) - 1, e)
    decreases Size(e), 1
  {
    PostLength(e);
    match e
    case Val(v) => assert items[from + 0].node == Post(e)[0];
    case Not(a) =>
      SpellsParts(items, from, Post(a), [NOpr(Bang)]);
      PostLast(items, from, Post(a), Bang);
      PostLength(a);
      PostSpells(items, from, a);
    case And(l, r) => SpellsBinary(items, from, e);
    case Or(l, r) => SpellsBinary(items, from, e);
  }

  lemma PostLast(items: seq<Item>, from: int, a: seq<Node>, op: Op)
    requires Spells(items, from, a + [NOpr(op)])
    ensures items[from + |a|].node == NOpr(op)
  {
    assert (a + [NOpr(op)])[|a|] == NOpr(op);
  }

  lemma {:induction false} SpellsBinary(items: seq<Item>, from: int, e: Expr)
    requires IsBinary(e) && Spells(items, from, Post(e))
    ensures At(items, from + Size(e) - 1, e)
    decreases Size(e), 0
  {
    var l, r := e.l, e.r;
    PostLength(l); PostLength(r);
    PostLast(items, from, Post(l) + Post(r), RootOp(e));
    SpellsParts(items, from, Post(l) + Post(r), [NOpr(RootOp(e))]);
    SpellsParts(items, from, Post(l), Post(r));
    PostSpells(items, from, l);
    PostSpells(items, from + Size(l), r);
  }

  /** What a text must look like to be accepted as the query `e`. */
  ghost predicate Denotes(text: string, e: Expr) {
    exists d :: Stream(text, Operand, 0) == YieldD(d) + [TEnd] && FitsD(d) && ExprD(d) == e
  }

  /**
   * `bqarr_in`. The empty-query error of the source cannot arise: a text that reaches its
   * end has at least one value.
   */
  method BqarrIn(text: string) returns (r: InResult)
    requires CString(text)
    ensures r.BadSyntax? <==> Compile(text).SyntaxError?
    ensures r.StatementTooComplex? <==> Compile(text).TooComplex?
    ensures (exists e :: Denotes(text, e)) <==> r.Query? || r.TooManyItems?
    ensures forall e | Denotes(text, e) ::
              if Size(e) > QUERYTYPEMAXITEMS then r.TooManyItems?
              else r.Query? && |r.items| == Size(e) && At(r.items, Size(e) - 1, e) && Links(r.items, Size(e) - 1, e)
    ensures forall e | Denotes(text, e) && Size(e) <= QUERYTYPEMAXITEMS :: Holds(r.items, e) <==> RightsFit(e)
  {
    CompiledIff(text);
    var state := new WorkState(text);
    assert text[0..] == text;
    var p := state.Polish();
    if p.Failed? {
      return if p.tooComplex then StatementTooComplex else BadSyntax;
    }
    ghost var d :| Stream(text, Operand, 0) == YieldD(d) + [TEnd] && FitsD(d);
    ghost var e := ExprD(d);
    assert Denotes(text, e);
    assert state.str == Post(e);
    PostLength(e);
    forall e' | Denotes(text, e') ensures Post(e') == Post(e) {}
    UniqueQuery(text, e);
    var num := |state.str|;
    if num > QUERYTYPEMAXITEMS { return TooManyItems; }
    var items := Stored(state.str, e);
    r := Query(items);
  }

  /** A text denotes at most one query. */
  lemma UniqueQuery(text: string, e: Expr)
    requires Denotes(text, e)
    ensures forall e' | Denotes(text, e') :: e' == e
  {
    CompiledIff(text);
    forall e' | Denotes(text, e') ensures e' == e {
      var d :| Stream(text, Operand, 0) == YieldD(d) + [TEnd] && FitsD(d) && ExprD(d) == e;
      var d' :| Stream(text, Operand, 0) == YieldD(d') + [TEnd] && FitsD(d') && ExprD(d') == e';
      PostInjective(e, e', [], []);
    }
  }

  lemma {:induction false} PostInjective(e: Expr, e': Expr, pre: seq<Node>, pre': seq<Node>)
    requires pre + Post(e) == pre' + Post(e')
    ensures e == e' && pre == pre'
  {
    var s, s' := pre + Post(e), pre' + Post(e');
    PostLength(e); PostLength(e');
    assert s[|s| - 1] == Post(e)[|Post(e)| - 1] && s'[|s'| - 1] == Post(e')[|Post(e')| - 1];
    match e
    case Val(v) =>
      assert s[..|s| - 1] == pre && s'[..|s'| - 1] == pre';
    case Not(a) =>
      assert e'.Not?;
      assert s[..|s| - 1] == pre + Post(a) && s'[..|s'| - 1] == pre' + Post(e'.e);
      PostInjective(a, e'.e, pre, pre');
    case And(l, r) =>
      assert e'.And?;
      assert s[..|s| - 1] == (pre + Post(l)) + Post(r) && s'[..|s'| - 1] == (pre' + Post(e'.l)) + Post(e'.r);
      PostInjective(r, e'.r, pre + Post(l), pre' + Post(e'.l));
      PostInjective(l, e'.l, pre, pre');
    case Or(l, r) =>
      assert e'.Or?;
      assert s[..|s| - 1] == (pre + Post(l)) + Post(r) && s'[..|s'| - 1] == (pre' + Post(e'.l)) + Post(e'.r);
      PostInjective(r, e'.r, pre + Post(l), pre' + Post(e'.l));
      PostInjective(l, e'.l, pre, pre');
  }

  /** Copies the notation into an array, last item first, with no links yet. */
  method CopyNodes(nodes: seq<Node>) returns (ptr: array<Item>)
    ensures fresh(ptr) && ptr.Length == |nodes| && forall k | 0 <= k < |nodes| :: ptr[k].node == nodes[k]
  {
    ptr := new Item[|nodes|](_ => Item(NVal(0), 0));
    var i := |nodes|;
    while i > 0
      invariant 0 <= i <= |nodes| && forall k | i <= k < |nodes| :: ptr[k].node == nodes[k]
    {
      i := i - 1;
      ptr[i] := Item(nodes[i], 0);
    }
  }

  /** The notation with its links filled in. */
  method Stored(nodes: seq<Node>, ghost e: Expr) returns (items: seq<Item>)
    requires nodes == Post(e)
    ensures |items| == Size(e) && At(items, Size(e) - 1, e) && Links(items, Size(e) - 1, e)
    ensures Holds(items, e) <==> RightsFit(e)
  {
    PostLength(e);
    var ptr := CopyNodes(nodes);
    PostSpells(ptr[..], 0, e);
    var pos := FindOprnd(ptr, |nodes| - 1, e);
    items := ptr[..];
    LinksReachIff(items, Size(e) - 1, e);
  }

  // ----- Against sorted arrays -----

  ghost predicate Sorted(a: seq<int>) { forall i, j | 0 <= i < j < |a| :: a[i] <= a[j] }

  method CheckConditionArr(a: seq<int>, val: int) returns (found: bool)
    requires Sorted(a)
    ensures found <==> val in a
  {
    var low, high := 0, |a|;
    while low < high
      invariant 0 <= low <= high <= |a|
      invariant forall i | 0 <= i < low :: a[i] < val
      invariant forall i | high <= i < |a| :: val < a[i]
    {
      var middle := low + (high - low) / 2;
      if a[middle] == val {
        return true;
      } else if a[middle] < val {
        low := middle + 1;
      } else {
        high := middle;
      }
    }
    found := false;
  }

  /** `execconsistent`, with every check made up front; a leaf calculates negations, an inner node does not. */
  method ExecConsistent(items: seq<Item>, a: seq<int>, calcnot: bool, ghost e: Expr) returns (b: bool)
    requires Holds(items, e) && Sorted(a)
    ensures calcnot ==> b == Meaning(e, Elements(a))
    ensures !calcnot ==> b == Lenient(e, Elements(a)) && forall s | s <= Elements(a) && Meaning(e, s) :: b
  {
    HoldsNavigable(items, e);
    var truth: seq<bool> := [];
    for i := 0 to |items|
      invariant |truth| == i
      invariant forall k | 0 <= k < i && items[k].node.NVal? :: truth[k] == (items[k].node.v in a)
    {
      var found := false;
      if items[i].node.NVal? { found := CheckConditionArr(a, items[i].node.v); }
      truth := truth + [found];
    }
    b := Execute(items, |items| - 1, calcnot, truth);
    if calcnot {
      ExecuteIsMeaning(items, |items| - 1, e, truth, Elements(a));
    } else {
      ExecuteIsLenient(items, |items| - 1, e, truth, Elements(a));
      forall s | s <= Elements(a) && Meaning(e, s) ensures b {
        ExecuteNeverRejects(items, |items| - 1, e, truth, s);
      }
    }
  }

  /**
   * A text against an array: with right operands that fit, the answer is the meaning of the
   * query that the text denotes.
   */
  method MatchText(text: string, a: seq<int>, ghost e: Expr) returns (b: bool)
    requires CString(text) && Denotes(text, e) && Size(e) <= QUERYTYPEMAXITEMS && RightsFit(e) && Sorted(a)
    ensures b == Meaning(e, Elements(a))
  {
    var r := BqarrIn(text);
    assert Holds(r.items, e);
    b := ExecConsistent(r.items, a, true, e);
  }

  // ----- A right operand that is too long -----

  /** 2 & 2 & ... & 2 */
  function Chain(n: nat): Expr { if n == 0 then Val(2) else And(Chain(n - 1), Val(2)) }

  lemma {:induction false} ChainReads(n: nat)
    ensures ExprC(ConjOf(Chain(n))) == Chain(n) && Size(Chain(n)) == 2 * n + 1 && AllInt32(Chain(n))
    ensures CString(Print(Chain(n), false))
  {
    if n == 0 {
      assert Decimal(2) == "2";
    } else {
      ChainReads(n - 1);
      assert ConjOf(Val(2)) == Only(Num(2));
      assert Decimal(2) == "2" && Print(Val(2), false) == "2";
    }
  }

  lemma {:induction false} ChainIsRead(n: nat)
    ensures var e := Or(Val(1), Chain(n)); Denotes(Print(e, true), e) && CString(Print(e, true)) && Size(e) == 2 * n + 3
  {
    ChainReads(n);
    var e := Or(Val(1), Chain(n));
    PrintedSentence(e);
    assert ConjOf(Val(1)) == Only(Num(1));
    assert ExprD(DisjOf(e)) == e;
    OrText(Chain(n));
  }

  lemma {:induction false} OrText(r: Expr)
    requires CString(Print(r, false))
    ensures CString(Print(Or(Val(1), r), true))
  {
    assert Decimal(1) == "1" && Print(Val(1), false) == "1";
  }

  /**
   * `1 | 2 & 2 & ... & 2` with 16385 twos or more is accepted. Its right operand has at least
   * 32769 items, and the link of the last item, instead of leading back, leads past the end.
   */
  lemma LinkPastTheEnd(n: nat) returns (text: string, e: Expr)
    requires 16384 <= n <= 32766
    ensures CString(text) && Denotes(text, e) && Size(e) <= QUERYTYPEMAXITEMS && !RightsFit(e)
    ensures forall items: seq<Item> | |items| == Size(e) && At(items, Size(e) - 1, e) && Links(items, Size(e) - 1, e) ::
              Size(e) - 1 + items[Size(e) - 1].left >= |items|
  {
    ChainReads(n);
    ChainIsRead(n);
    e := Or(Val(1), Chain(n));
    text := Print(e, true);
    forall items: seq<Item> | |items| == Size(e) && At(items, Size(e) - 1, e) && Links(items, Size(e) - 1, e)
      ensures Size(e) - 1 + items[Size(e) - 1].left >= |items|
    {
      RootLink(items, e.l, e.r, n);
    }
  }

  lemma {:induction false} RootLink(items: seq<Item>, l: Expr, r: Expr, n: nat)
    requires l == Val(1) && Size(r) == 2 * n + 1 && 16384 <= n <= 32766
    requires |items| == Size(Or(l, r)) && At(items, |items| - 1, Or(l, r)) && Links(items, |items| - 1, Or(l, r))
    ensures |items| - 1 + items[|items| - 1].left >= |items|
  {
  }

  // ----- GIN support -----

  /** The values of the first `n` items, in order. */
  function Vals(items: seq<Item>, n: nat): seq<int>
    requires n <= |items|
  {
    if n == 0 then [] else
      Vals(items, n - 1) + (if items[n - 1].node.NVal? then [items[n - 1].node.v] else [])
  }

  /** Where the check result of item `i` stands among those of the values. */
  lemma {:induction false} ValsIndex(items: seq<Item>, i: nat, n: nat)
    requires i < n <= |items| && items[i].node.NVal?
    ensures |Vals(items, i)| < |Vals(items, n)|
    ensures Vals(items, n)[|Vals(items, i)|] == items[i].node.v
  {
    if i + 1 < n { ValsIndex(items, i, n - 1); }
  }

  /** `ginint4_queryextract` for boolean queries: the values to look up, and whether to scan everything. */
  method GinQueryExtract(items: seq<Item>, ghost e: Expr) returns (res: seq<int>, scanAll: bool)
    requires Holds(items, e)
    ensures res == Vals(items, |items|) && (scanAll <==> Lenient(e, {}))
    ensures !scanAll ==> forall s | Meaning(e, s) :: exists v :: v in res && v in s
  {
    HoldsNavigable(items, e);
    RequiredIff(items, |items| - 1, e);
    scanAll := !ContainsRequiredValue(items, |items| - 1);
    res := [];
    for i := 0 to |items|
      invariant res == Vals(items, i)
    {
      if items[i].node.NVal? { res := res + [items[i].node.v]; }
    }
    if !scanAll {
      forall s | Meaning(e, s) ensures exists v :: v in res && v in s {
        var i := RequiredIsRequired(items, |items| - 1, e, s);
        ValsIndex(items, i, |items|);
        assert items[i].node.v in res;
      }
    }
  }

  /** `gin_bool_consistent`: with a truthful check vector, exactly the meaning of the query. */
  method GinBoolConsistent(items: seq<Item>, check: seq<bool>, ghost e: Expr) returns (b: bool)
    requires Holds(items, e) && |check| == |Vals(items, |items|)|
    ensures forall s | (forall j | 0 <= j < |check| :: check[j] == (Vals(items, |items|)[j] in s)) ::
              b == Meaning(e, s)
  {
    HoldsNavigable(items, e);
    var mapped: seq<bool> := [];
    var j := 0;
    for i := 0 to |items|
      invariant |mapped| == i && j == |Vals(items, i)|
      invariant forall k | 0 <= k < i && items[k].node.NVal? ::
                  |Vals(items, k)| < |check| && mapped[k] == check[|Vals(items, k)|]
    {
      if items[i].node.NVal? {
        ValsIndex(items, i, |items|);
        mapped, j := mapped + [check[j]], j + 1;
      } else {
        mapped := mapped + [false];
      }
    }
    b := Execute(items, |items| - 1, true, mapped);
    forall s | forall j | 0 <= j < |check| :: check[j] == (Vals(items, |items|)[j] in s)
      ensures b == Meaning(e, s)
    {
      forall k | 0 <= k < |items| && items[k].node.NVal? ensures mapped[k] == (items[k].node.v in s) {
        ValsIndex(items, k, |items|);
      }
      ExecuteIsMeaning(items, |items| - 1, e, mapped, s);
    }
  }
}
