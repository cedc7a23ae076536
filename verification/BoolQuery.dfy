/**
 * Boolean queries of intarray: the grammar, what a query means, and the operator-stack
 * compiler `makepol` that turns a token stream into postfix notation.
 */
module BoolQuery {

  // ----- Queries and their meaning -----

  datatype Op = Bang | Amp | Bar

  datatype Expr = Val(v: int) | Not(e: Expr) | And(l: Expr, r: Expr) | Or(l: Expr, r: Expr)

  /** Does the set of integers satisfy the query? */
  predicate Meaning(e: Expr, s: set<int>) {
    match e
    case Val(v) => v in s
    case Not(a) => !Meaning(a, s)
    case And(l, r) => Meaning(l, s) && Meaning(r, s)
    case Or(l, r) => Meaning(l, s) || Meaning(r, s)
  }

  /** The set that an array is to a query. */
  ghost function Elements(a: seq<int>): set<int> { set x | x in a }

  // ----- The grammar, as derivation trees -----

  /** query ::= conj | query '|' conj */
  datatype Disj = One(c: Conj) | Alt(d: Disj, c: Conj)
  /** conj ::= fact | conj '&' fact */
  datatype Conj = Only(f: Fact) | Also(c: Conj, f: Fact)
  /** fact ::= value | '!' fact | '(' query ')' */
  datatype Fact = Num(v: int) | Neg(f: Fact) | Paren(d: Disj)

  datatype Token = TVal(v: int) | TOpr(op: Op) | TOpen | TClose | TEnd | TErr

  function YieldD(d: Disj): seq<Token> {
    match d
    case One(c) => YieldC(c)
    case Alt(d', c) => YieldD(d') + [TOpr(Bar)] + YieldC(c)
  }

  function YieldC(c: Conj): seq<Token> {
    match c
    case Only(f) => YieldF(f)
    case Also(c', f) => YieldC(c') + [TOpr(Amp)] + YieldF(f)
  }

  function YieldF(f: Fact): seq<Token> {
    match f
    case Num(v) => [TVal(v)]
    case Neg(g) => [TOpr(Bang)] + YieldF(g)
    case Paren(d) => [TOpen] + YieldD(d) + [TClose]
  }

  /** The query that a derivation stands for: `!` binds tighter than `&`, `&` than `|`. */
  function ExprD(d: Disj): Expr {
    match d
    case One(c) => ExprC(c)
    case Alt(d', c) => Or(ExprD(d'), ExprC(c))
  }

  function ExprC(c: Conj): Expr {
    match c
    case Only(f) => ExprF(f)
    case Also(c', f) => And(ExprC(c'), ExprF(f))
  }

  function ExprF(f: Fact): Expr {
    match f
    case Num(v) => Val(v)
    case Neg(g) => Not(ExprF(g))
    case Paren(d) => ExprD(d)
  }

  // ----- Postfix notation -----

  datatype Node = NVal(v: int) | NOpr(op: Op)

  function Post(e: Expr): seq<Node> {
    match e
    case Val(v) => [NVal(v)]
    case Not(a) => Post(a) + [NOpr(Bang)]
    case And(l, r) => Post(l) + Post(r) + [NOpr(Amp)]
    case Or(l, r) => Post(l) + Post(r) + [NOpr(Bar)]
  }

  // ----- The compiler -----

  const STACKDEPTH := 16

  datatype PolResult =
    | Done(rest: seq<Token>, out: seq<Node>)
    | SyntaxError
    | TooComplex

  /** What is left of the operator stack once `&` and `!` are popped off its top. */
  function Loose(stack: seq<Op>): (r: seq<Op>)
    ensures |r| <= |stack|
  {
    if stack == [] || stack[|stack| - 1] == Bar then stack else Loose(stack[..|stack| - 1])
  }

  /** The operators popped by that, in the order in which they are written out. */
  function Popped(stack: seq<Op>): seq<Node> {
    if stack == [] || stack[|stack| - 1] == Bar then [] else
      [NOpr(stack[|stack| - 1])] + Popped(stack[..|stack| - 1])
  }

  /** The whole stack, written out from its top. */
  function Flushed(stack: seq<Op>): seq<Node> {
    if stack == [] then [] else [NOpr(stack[|stack| - 1])] + Flushed(stack[..|stack| - 1])
  }

  /** `makepol` on the tokens still to come, with the operator stack and output of one call. */
  function MakePol(ts: seq<Token>, stack: seq<Op>, out: seq<Node>): (r: PolResult)
    ensures r.Done? ==> |r.rest| < |ts|
    decreases |ts|
  {
    if ts == [] then SyntaxError else
    match ts[0]
    case TEnd => Done(ts[1..], out + Flushed(stack))
    case TClose => Done(ts[1..], out + Flushed(stack))
    case TVal(v) => MakePol(ts[1..], Loose(stack), out + [NVal(v)] + Popped(stack))
    case TOpr(op) =>
      if stack != [] && op == Bar then MakePol(ts[1..], stack, out + [NOpr(op)])
      else if |stack| == STACKDEPTH then TooComplex
      else MakePol(ts[1..], stack + [op], out)
    case TOpen =>
      var r := MakePol(ts[1..], [], out);
      if r.Done? then MakePol(r.rest, Loose(stack), r.out + Popped(stack)) else r
    case TErr => SyntaxError
  }

  // ----- When the operator stack suffices -----

  /** A fact fits on a stack that already holds `h` operators of its call. */
  predicate FitsF(f: Fact, h: nat) {
    match f
    case Num(_) => true
    case Neg(g) => h < STACKDEPTH && FitsF(g, h + 1)
    case Paren(d) => FitsD(d)
  }

  predicate FitsC(c: Conj, h: nat) {
    match c
    case Only(f) => FitsF(f, h)
    case Also(c', f) => FitsC(c', h) && FitsF(f, h + 1)
  }

  predicate FitsD(d: Disj) {
    match d
    case One(c) => FitsC(c, 0)
    case Alt(d', c) => FitsD(d') && FitsC(c, 1)
  }

  // ----- The compiler against the grammar -----

  /** The stack between two operands of a disjunction: at most one pending `|`. */
  function Pending(d: Disj): seq<Op> { if d.One? then [] else [Bar] }

  /** What is written before a pending `|`. */
  function Partial(d: Disj): seq<Node> {
    match d
    case One(c) => Post(ExprC(c))
    case Alt(d', c) => Post(ExprD(d')) + Post(ExprC(c))
  }

  lemma PartialThenPending(d: Disj)
    ensures Partial(d) + Flushed(Pending(d)) == Post(ExprD(d))
  {
    if d.Alt? {
      assert [Bar][..0] == [];
      assert Flushed([Bar]) == [NOpr(Bar)];
    }
  }

  /**
   * A fact is compiled to its postfix form, followed by the operators that were waiting
   * for it; if its `!` run overflows the stack, the whole query is refused.
   */
  lemma {:induction false} PolFact(f: Fact, rest: seq<Token>, stack: seq<Op>, out: seq<Node>)
    requires |stack| <= STACKDEPTH
    ensures MakePol(YieldF(f) + rest, stack, out)
            == if FitsF(f, |stack|) then MakePol(rest, Loose(stack), out + Post(ExprF(f)) + Popped(stack))
               else TooComplex
    decreases f, 0
  {
    match f
    case Num(v) =>
      assert (YieldF(f) + rest)[1..] == rest;
    case Neg(g) =>
      assert (YieldF(f) + rest)[1..] == YieldF(g) + rest;
      if |stack| < STACKDEPTH {
        PolFact(g, rest, stack + [Bang], out);
        assert (stack + [Bang])[..|stack|] == stack;
        assert out + Post(ExprF(g)) + Popped(stack + [Bang]) == out + Post(ExprF(f)) + Popped(stack);
      }
    case Paren(d) =>
      assert (YieldF(f) + rest)[1..] == YieldD(d) + ([TClose] + rest);
      PolDisj(d, [TClose] + rest, out);
      assert ([TClose] + rest)[1..] == rest;
      PartialThenPending(d);
      assert out + Partial(d) + Flushed(Pending(d)) == out + Post(ExprF(f));
  }

  lemma {:induction false} PolConj(c: Conj, rest: seq<Token>, stack: seq<Op>, out: seq<Node>)
    requires stack == [] || stack == [Bar]
    ensures MakePol(YieldC(c) + rest, stack, out)
            == if FitsC(c, |stack|) then MakePol(rest, stack, out + Post(ExprC(c))) else TooComplex
    decreases c
  {
    match c
    case Only(f) =>
      PolFact(f, rest, stack, out);
      assert out + Post(ExprC(c)) + [] == out + Post(ExprC(c));
    case Also(c', f) =>
      var after := YieldF(f) + rest;
      assert YieldC(c) + rest == YieldC(c') + ([TOpr(Amp)] + after);
      PolConj(c', [TOpr(Amp)] + after, stack, out);
      if FitsC(c', |stack|) {
        PolConjunct(f, rest, stack, out + Post(ExprC(c')));
        assert out + Post(ExprC(c')) + Post(ExprF(f)) + [NOpr(Amp)] == out + Post(ExprC(c));
      }
  }

  /** One more conjunct: its `&` is written right after it. */
  lemma PolConjunct(f: Fact, rest: seq<Token>, stack: seq<Op>, out: seq<Node>)
    requires stack == [] || stack == [Bar]
    ensures MakePol([TOpr(Amp)] + (YieldF(f) + rest), stack, out)
            == if FitsF(f, |stack| + 1) then MakePol(rest, stack, out + Post(ExprF(f)) + [NOpr(Amp)])
               else TooComplex
    decreases f, 1
  {
    assert ([TOpr(Amp)] + (YieldF(f) + rest))[1..] == YieldF(f) + rest;
    PolFact(f, rest, stack + [Amp], out);
    PoppedAmp(stack);
  }

  lemma PoppedAmp(stack: seq<Op>)
    requires stack == [] || stack == [Bar]
    ensures Loose(stack + [Amp]) == stack && Popped(stack + [Amp]) == [NOpr(Amp)]
  {
    assert (stack + [Amp])[..|stack|] == stack;
  }

  lemma {:induction false} PolDisj(d: Disj, rest: seq<Token>, out: seq<Node>)
    ensures MakePol(YieldD(d) + rest, [], out)
            == if FitsD(d) then MakePol(rest, Pending(d), out + Partial(d)) else TooComplex
    decreases d
  {
    match d
    case One(c) => PolConj(c, rest, [], out);
    case Alt(d', c) =>
      var after := YieldC(c) + rest;
      assert YieldD(d) + rest == YieldD(d') + ([TOpr(Bar)] + after);
      PolDisj(d', [TOpr(Bar)] + after, out);
      if FitsD(d') {
        assert ([TOpr(Bar)] + after)[1..] == after;
        var out' := out + Post(ExprD(d'));
        PartialThenPending(d');
        assert out + Partial(d') + Flushed(Pending(d')) == out';
        PolAlternative(d', after, out);
        PolConj(c, rest, [Bar], out');
        assert out' + Post(ExprC(c)) == out + Partial(d);
      }
  }

  /** At a `|`, the previous one is written out if there is one; one stays pending. */
  lemma PolAlternative(d: Disj, after: seq<Token>, out: seq<Node>)
    ensures MakePol([TOpr(Bar)] + after, Pending(d), out + Partial(d))
            == MakePol(after, [Bar], out + Post(ExprD(d)))
  {
    assert ([TOpr(Bar)] + after)[1..] == after;
    PartialThenPending(d);
    assert [] + [Bar] == [Bar];
    if d.Alt? {
      assert [Bar][..0] == [];
      assert Flushed([Bar]) == [NOpr(Bar)];
      assert out + Partial(d) + [NOpr(Bar)] == out + Post(ExprD(d));
    }
  }

  /** Every sentence of the grammar is compiled to the postfix form of its query, or is too deep. */
  lemma PolSentence(d: Disj)
    ensures MakePol(YieldD(d) + [TEnd], [], [])
            == if FitsD(d) then Done([], Post(ExprD(d))) else TooComplex
  {
    PolDisj(d, [TEnd], []);
    PartialThenPending(d);
    assert [] + Partial(d) + Flushed(Pending(d)) == Post(ExprD(d));
    assert [TEnd][1..] == [];
  }

  // ----- Which token streams the lexer lets through -----

  /** What may come next: an operand, or an operator after a complete operand. */
  datatype Waiting = Operand | Operator

  /** The discipline of `gettoken`: operands and operators alternate, parentheses balance. */
  predicate Disciplined(ts: seq<Token>, w: Waiting, count: nat) {
    if ts == [] then w == Operator && count == 0 else
    match (w, ts[0])
    case (Operand, TVal(_)) => Disciplined(ts[1..], Operator, count)
    case (Operand, TOpr(op)) => op == Bang && Disciplined(ts[1..], Operand, count)
    case (Operand, TOpen) => Disciplined(ts[1..], Operand, count + 1)
    case (Operator, TOpr(op)) => op != Bang && Disciplined(ts[1..], Operand, count)
    case (Operator, TClose) => count > 0 && Disciplined(ts[1..], Operator, count - 1)
    case _ => false
  }

  /** Where a query may stop: at the end of the text, or before a closing parenthesis. */
  predicate AtStop(rest: seq<Token>) { rest == [] || rest[0] == TClose }

  predicate AtConjStop(rest: seq<Token>) { AtStop(rest) || rest[0] == TOpr(Bar) }

  lemma {:induction false} DeriveFact(ts: seq<Token>, count: nat) returns (f: Fact, rest: seq<Token>)
    requires Disciplined(ts, Operand, count)
    ensures ts == YieldF(f) + rest && Disciplined(rest, Operator, count) && |rest| < |ts|
    decreases |ts|, 0
  {
    match ts[0]
    case TVal(v) => f, rest := Num(v), ts[1..];
    case TOpr(op) =>
      var g;
      g, rest := DeriveFact(ts[1..], count);
      f := Neg(g);
    case TOpen =>
      var d;
      d, rest := DeriveDisj(ts[1..], count + 1);
      f := Paren(d);
      assert ts == [TOpen] + (YieldD(d) + rest) == YieldF(f) + rest[1..];
      rest := rest[1..];
  }

  lemma {:induction false} DeriveConj(ts: seq<Token>, count: nat) returns (c: Conj, rest: seq<Token>)
    requires Disciplined(ts, Operand, count)
    ensures ts == YieldC(c) + rest && Disciplined(rest, Operator, count) && |rest| < |ts|
    ensures AtConjStop(rest)
    decreases |ts|, 2
  {
    var f;
    f, rest := DeriveFact(ts, count);
    c, rest := MoreConj(Only(f), rest, count);
  }

  lemma {:induction false} MoreConj(c0: Conj, ts: seq<Token>, count: nat) returns (c: Conj, rest: seq<Token>)
    requires Disciplined(ts, Operator, count)
    ensures YieldC(c0) + ts == YieldC(c) + rest && Disciplined(rest, Operator, count) && |rest| <= |ts|
    ensures AtConjStop(rest)
    decreases |ts|, 1
  {
    c, rest := c0, ts;
    if !AtConjStop(ts) {
      var f;
      f, rest := DeriveFact(ts[1..], count);
      assert YieldC(c0) + ts == YieldC(Also(c0, f)) + rest;
      c, rest := MoreConj(Also(c0, f), rest, count);
    }
  }

  lemma {:induction false} DeriveDisj(ts: seq<Token>, count: nat) returns (d: Disj, rest: seq<Token>)
    requires Disciplined(ts, Operand, count)
    ensures ts == YieldD(d) + rest && Disciplined(rest, Operator, count) && |rest| < |ts|
    ensures AtStop(rest) && (rest == [] <==> count == 0)
    decreases |ts|, 4
  {
    var c;
    c, rest := DeriveConj(ts, count);
    d, rest := MoreDisj(One(c), rest, count);
  }

  lemma {:induction false} MoreDisj(d0: Disj, ts: seq<Token>, count: nat) returns (d: Disj, rest: seq<Token>)
    requires Disciplined(ts, Operator, count) && AtConjStop(ts)
    ensures YieldD(d0) + ts == YieldD(d) + rest && Disciplined(rest, Operator, count) && |rest| <= |ts|
    ensures AtStop(rest) && (rest == [] <==> count == 0)
    decreases |ts|, 3
  {
    d, rest := d0, ts;
    if !AtStop(ts) {
      var c;
      c, rest := DeriveConj(ts[1..], count);
      assert YieldD(d0) + ts == YieldD(Alt(d0, c)) + rest;
      d, rest := MoreDisj(Alt(d0, c), rest, count);
    }
  }

  /** A disciplined stream is a sentence of the grammar. */
  lemma DisciplinedIsSentence(ts: seq<Token>) returns (d: Disj)
    requires Disciplined(ts, Operand, 0)
    ensures ts == YieldD(d)
  {
    var rest;
    d, rest := DeriveDisj(ts, 0);
    assert YieldD(d) + [] == YieldD(d);
  }

  /** And every sentence is a disciplined stream. */
  lemma {:induction false} FactDisciplined(f: Fact, rest: seq<Token>, count: nat)
    ensures Disciplined(YieldF(f) + rest, Operand, count) == Disciplined(rest, Operator, count)
  {
    match f
    case Num(v) => assert (YieldF(f) + rest)[1..] == rest;
    case Neg(g) =>
      assert (YieldF(f) + rest)[1..] == YieldF(g) + rest;
      FactDisciplined(g, rest, count);
    case Paren(d) =>
      assert (YieldF(f) + rest)[1..] == YieldD(d) + ([TClose] + rest);
      DisjDisciplined(d, [TClose] + rest, count + 1);
      assert ([TClose] + rest)[1..] == rest;
  }

  lemma {:induction false} ConjDisciplined(c: Conj, rest: seq<Token>, count: nat)
    ensures Disciplined(YieldC(c) + rest, Operand, count) == Disciplined(rest, Operator, count)
  {
    match c
    case Only(f) => FactDisciplined(f, rest, count);
    case Also(c', f) =>
      var after := [TOpr(Amp)] + (YieldF(f) + rest);
      assert YieldC(c) + rest == YieldC(c') + after;
      ConjDisciplined(c', after, count);
      assert after[1..] == YieldF(f) + rest;
      FactDisciplined(f, rest, count);
  }

  lemma {:induction false} DisjDisciplined(d: Disj, rest: seq<Token>, count: nat)
    ensures Disciplined(YieldD(d) + rest, Operand, count) == Disciplined(rest, Operator, count)
  {
    match d
    case One(c) => ConjDisciplined(c, rest, count);
    case Alt(d', c) =>
      var after := [TOpr(Bar)] + (YieldC(c) + rest);
      assert YieldD(d) + rest == YieldD(d') + after;
      DisjDisciplined(d', after, count);
      assert after[1..] == YieldC(c) + rest;
      ConjDisciplined(c, rest, count);
  }
}
