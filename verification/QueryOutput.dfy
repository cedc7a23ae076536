/**
 * `bqarr_out`: the text of a stored query, if its buffers suffice, and what reading the text
 * back gives.
 */
module QueryOutput {
  import opened Machine
  import opened Options
  import opened BoolQuery
  import opened QueryText
  import opened QueryItems
  import opened QueryPrint
  import opened QueryIO

  // ----- Output -----

  /** The text, unless a buffer would have to hold 2^29 bytes. */
  method BqarrOut(items: seq<Item>, ghost e: Expr) returns (text: Option<string>)
    requires |items| == Size(e) && At(items, Size(e) - 1, e) && AllInt32(e)
    ensures text == if Demand(e) < BUF_MAX then Some(Print(e, true)) else None
  {
    FirstSizes();
    var nrm := new Infix(|items| - 1, 32);
    var ok := nrm.Write(items, true, e);
    assert ok ==> nrm.buf == Print(e, true);
    return if ok then Some(nrm.buf) else None;
  }

  /** Every text of up to 2^29 - 13 bytes is printed, and none of 2^29 - 1 bytes or more. */
  lemma DemandOfText(e: Expr)
    requires AllInt32(e)
    ensures |Print(e, true)| + 12 < BUF_MAX ==> Demand(e) < BUF_MAX
    ensures Demand(e) < BUF_MAX ==> |Print(e, true)| + 1 < BUF_MAX
  {
    PeakBounds(e, true, 0);
  }

  // ----- Out and in again -----

  lemma {:induction false} AppendSize(c: Conj, d: Conj)
    ensures Size(ExprC(Append(c, d))) == Size(ExprC(c)) + Size(ExprC(d)) + 1
  {
    if d.Also? { AppendSize(c, d.c); }
  }

  /** What is read back has as many items as what was printed. */
  lemma {:induction false} PrintedSize(e: Expr)
    ensures Size(ExprC(ConjOf(e))) == Size(e) && Size(ExprD(DisjOf(e))) == Size(e)
  {
    match e
    case Val(_) =>
    case Not(a) =>
      PrintedSize(a);
      var g := if a.Val? then Num(a.v) else Paren(DisjOf(a));
      assert ConjOf(e) == Only(Neg(g)) && ExprF(g) == if a.Val? then a else ExprD(DisjOf(a));
      assert ExprC(ConjOf(e)) == Not(ExprF(g));
    case And(l, r) => PrintedSize(l); PrintedSize(r); AppendSize(ConjOf(l), ConjOf(r));
    case Or(l, r) =>
      PrintedSize(l); PrintedSize(r);
      assert ExprD(DisjOf(e)) == Or(ExprC(ConjOf(l)), ExprC(ConjOf(r)));
      assert ExprC(ConjOf(e)) == ExprF(Paren(DisjOf(e)));
  }

  lemma PrintedDenotes(e: Expr)
    requires AllInt32(e)
    ensures Denotes(Print(e, true), ExprD(DisjOf(e))) && CString(Print(e, true))
    ensures forall s :: Meaning(ExprD(DisjOf(e)), s) == Meaning(e, s)
  {
    PrintThenCompile(e);
    PrintedSentence(e);
    PrintedIsText(e, true);
  }

  lemma {:induction false} PrintedIsText(e: Expr, first: bool)
    ensures CString(Print(e, first))
    decreases Size(e)
  {
    match e
    case Val(v) => assert CString(Decimal(v));
    case Not(a) => PrintedIsText(a, !a.Val?);
    case And(l, r) => PrintedIsText(l, false); PrintedIsText(r, false);
    case Or(l, r) => PrintedIsText(l, false); PrintedIsText(r, false);
  }

  /**
   * A stored query that is printed is read back as a query with as many items and the same
   * meaning; it is printed if and only if the buffers suffice.
   */
  method OutThenIn(items: seq<Item>, ghost e: Expr) returns (text: Option<string>, r: InResult, ghost e': Expr)
    requires |items| == Size(e) <= QUERYTYPEMAXITEMS && At(items, Size(e) - 1, e) && AllInt32(e)
    ensures text.Some? <==> Demand(e) < BUF_MAX
    ensures text.Some? ==> r.Query? && |r.items| == Size(e') == Size(e) && At(r.items, Size(e') - 1, e')
    ensures forall s :: Meaning(e', s) == Meaning(e, s)
  {
    e', r := e, BadSyntax;
    text := BqarrOut(items, e);
    if text.Some? {
      e' := ExprD(DisjOf(e));
      PrintedSize(e);
      PrintedDenotes(e);
      r := BqarrIn(text.value);
    }
  }
}
