/**
 * Printing stored queries (`infix`, `bqarr_out`) and reading the printed text back.
 */
module QueryPrint {
  import opened Machine
  import opened BoolQuery
  import opened QueryText
  import opened QueryItems

  // ----- Decimal numbers -----

  function DigitChar(d: int): char
    requires 0 <= d < 10
  {
    ('0' as int + d) as char
  }

  function Digits(n: nat): (s: string)
    ensures s != [] && forall c | c in s :: IsDigit(c)
  {
    if n < 10 then [DigitChar(n)] else Digits(n / 10) + [DigitChar(n % 10)]
  }

  function Decimal(v: int): string { if v < 0 then "-" + Digits(-v) else Digits(v) }

  lemma {:induction false} ReadDigits(n: nat, rest: string)
    ensures ReadBase(Digits(n) + rest, 10, 0) == ReadBase(rest, 10, n)
  {
    var last := if n < 10 then n else n % 10;
    assert ([DigitChar(last)] + rest)[1..] == rest;
    if n >= 10 {
      assert Digits(n) + rest == Digits(n / 10) + ([DigitChar(last)] + rest);
      ReadDigits(n / 10, [DigitChar(last)] + rest);
    }
  }

  function Pow10(k: nat): nat { if k == 0 then 1 else 10 * Pow10(k - 1) }

  lemma {:induction false} DigitsLength(n: nat, k: nat)
    requires k >= 1 && n < Pow10(k)
    ensures |Digits(n)| <= k
  {
    if n >= 10 { DigitsLength(n / 10, k - 1); }
  }

  lemma {:induction false} LeadingDigit(n: nat)
    requires n > 0
    ensures Digits(n)[0] != '0'
  {
    if n >= 10 { LeadingDigit(n / 10); }
  }

  lemma MagnitudeOfDigits(n: nat)
    ensures Magnitude(Digits(n)) == n
  {
    if n > 0 {
      LeadingDigit(n);
      ReadDigits(n, []);
      assert Digits(n) + [] == Digits(n);
    } else {
      assert "0"[1..] == [];
    }
  }

  lemma StrtolOfDecimal(v: int)
    ensures Strtol(Decimal(v)) == v
  {
    MagnitudeOfDigits(if v < 0 then -v else v);
    if v < 0 {
      assert Decimal(v)[1..] == Digits(-v);
    } else {
      assert IsDigit(Digits(v)[0]);
    }
  }

  /** What may follow a printed number. */
  predicate Follows(rest: string, count: nat) { if rest == [] then count == 0 else rest[0] == ' ' }

  /** A printed number is scanned as one token with its value. */
  lemma ScanDecimal(v: int, rest: string, count: nat)
    requires Int32(v) && Follows(rest, count)
    ensures Stream(Decimal(v) + rest, Operand, count) == [TVal(v)] + Stream(rest, Operator, count)
  {
    var s, n := Decimal(v) + rest, |Decimal(v)|;
    StrtolOfDecimal(v);
    TenDigits(if v < 0 then -v else v);
    assert forall i | 1 <= i < n :: IsDigit(Decimal(v)[i]);
    RunLength(s[1..], n - 1);
    assert s[..n] == Decimal(v) && s[n..] == rest;
    assert NextToken(s, Operand, count) == NumberToken(s, count);
  }

  lemma TenDigits(n: nat)
    requires n <= 0x8000_0000
    ensures |Digits(n)| <= 10
  {
    assert Pow10(5) == 100_000;
    assert Pow10(10) == 10 * (10 * (10 * (10 * (10 * Pow10(5)))));
    DigitsLength(n, 10);
  }

  // ----- What is printed -----

  function OpChar(op: Op): char { match op case Bang => '!' case Amp => '&' case Bar => '|' }

  function Print(e: Expr, first: bool): string
    decreases Size(e), 1
  {
    match e
    case Val(v) => Decimal(v)
    case Not(a) => "!" + (if a.Val? then Print(a, false) else "( " + Print(a, true) + " )")
    case And(l, r) => PrintBinary(l, Amp, r)
    case Or(l, r) => if first then PrintBinary(l, Bar, r) else "( " + PrintBinary(l, Bar, r) + " )"
  }

  function PrintBinary(l: Expr, op: Op, r: Expr): string
    decreases Size(l) + Size(r), 2
  {
    Joined(Print(l, false), op, Print(r, false))
  }

  /** An operator between two texts. */
  function Joined(l: string, op: Op, r: string): string { l + (" " + [OpChar(op)] + " " + r) }

  predicate AllInt32(e: Expr) {
    match e
    case Val(v) => Int32(v)
    case Not(a) => AllInt32(a)
    case And(l, r) => AllInt32(l) && AllInt32(r)
    case Or(l, r) => AllInt32(l) && AllInt32(r)
  }

  // ----- How much room printing asks for -----

  function Max(a: nat, b: nat): nat { if a < b then b else a }

  /**
   * The most that any buffer is asked to hold, terminator included, while `e` is written behind
   * `len` bytes. A number asks for eleven bytes whatever its length, and a right operand is
   * written to a buffer of its own first.
   */
  function Peak(e: Expr, first: bool, len: nat): nat
    decreases Size(e), 1
  {
    match e
    case Val(_) => len + 12
    case Not(a) =>
      if a.Val? then Max(len + 2, Peak(a, false, len + 1))
      else Max(len + 2, PeakParen(len + 1, Peak(a, true, len + 3), |Print(a, true)|))
    case And(l, r) => PeakBinary(l, r, len)
    case Or(l, r) =>
      if first then PeakBinary(l, r, len)
      else PeakParen(len, PeakBinary(l, r, len + 2), |PrintBinary(l, Bar, r)|)
  }

  /** Parentheses around a text of `n` bytes, behind `len` bytes. */
  function PeakParen(len: nat, inner: nat, n: nat): nat { Max(Max(len + 3, inner), len + 2 + n + 3) }

  function PeakBinary(l: Expr, r: Expr, len: nat): nat
    decreases Size(l) + Size(r), 2
  {
    Max(Peak(r, false, 0), Max(Peak(l, false, len), len + |Print(l, false)| + 3 + |Print(r, false)| + 1))
  }

  /** The most that printing a query asks of a buffer. */
  function Demand(e: Expr): nat { Peak(e, true, 0) }

  /** Printing a query of 32-bit values asks for its text and a terminator, and at most eleven bytes more. */
  lemma {:induction false} PeakBounds(e: Expr, first: bool, len: nat)
    requires AllInt32(e)
    ensures len + |Print(e, first)| + 1 <= Peak(e, first, len) <= len + |Print(e, first)| + 12
    ensures |Print(e, first)| > 0
    decreases Size(e), 1
  {
    match e
    case Val(v) => DecimalLength(v);
    case Not(a) => PeakBounds(a, !a.Val?, if a.Val? then len + 1 else len + 3);
    case And(l, r) => PeakBinaryBounds(l, r, Amp, len);
    case Or(l, r) => PeakBinaryBounds(l, r, Bar, if first then len else len + 2);
  }

  lemma {:induction false} PeakBinaryBounds(l: Expr, r: Expr, op: Op, len: nat)
    requires AllInt32(l) && AllInt32(r)
    ensures len + |PrintBinary(l, op, r)| + 1 <= PeakBinary(l, r, len) <= len + |PrintBinary(l, op, r)| + 12
    decreases Size(l) + Size(r), 2
  {
    PeakBounds(l, false, len);
    PeakBounds(r, false, 0);
  }

  lemma DecimalLength(v: int)
    requires Int32(v)
    ensures 1 <= |Decimal(v)| <= 11
  {
    TenDigits(if v < 0 then -v else v);
  }

  // ----- The printer -----

  class Infix {
    var curpol: int
    var buf: string
    var buflen: nat

    constructor (curpol: int, buflen: nat)
      requires IsPower(buflen, BUF_MAX)
      ensures this.curpol == curpol && buf == "" && Fits()
    {
      this.curpol, this.buf, this.buflen := curpol, "", buflen;
    }

    /** There is room for the text and its terminator; the size of the buffer is a power of two. */
    ghost predicate Fits()
      reads this
    {
      |buf| < buflen && IsPower(buflen, BUF_MAX)
    }

    /** `RESIZEBUF`: the buffer is doubled until there is room, or can be doubled no more. */
    method Resize(add: nat) returns (ok: bool)
      requires Fits()
      modifies this`buflen
      ensures ok <==> |buf| + add + 1 < BUF_MAX
      ensures ok ==> Fits() && |buf| + add + 1 < buflen
    {
      while |buf| + add + 1 >= buflen
        invariant Fits()
        decreases BUF_MAX - buflen
      {
        PowerStep(buflen, BUF_MAX);
        buflen := buflen * 2;
        if buflen > MAX_ALLOC { return false; }
      }
      PowerStep(buflen, BUF_MAX);
      return true;
    }

    /** Room is made for `add` bytes, and a text of no more than that is written. */
    method Put(text: string, add: nat) returns (ok: bool)
      requires Fits() && |text| <= add
      modifies this`buf, this`buflen
      ensures ok <==> |old(buf)| + add + 1 < BUF_MAX
      ensures ok ==> Fits() && buf == old(buf) + text
    {
      ok := Resize(add);
      if ok { buf := buf + text; }
    }

    /** Prints the query that ends at `curpol` and moves in front of it, if no buffer gets too large. */
    method Write(items: seq<Item>, first: bool, ghost e: Expr) returns (ok: bool)
      requires At(items, curpol, e) && AllInt32(e) && Fits()
      modifies this
      ensures ok <==> Peak(e, first, |old(buf)|) < BUF_MAX
      ensures ok ==> Fits() && curpol == old(curpol) - Size(e) && buf == old(buf) + Print(e, first)
      decreases curpol, 1
    {
      if items[curpol].node.NVal? {
        DecimalLength(items[curpol].node.v);
        ok := Put(Decimal(items[curpol].node.v), 11);
        curpol := curpol - 1;
      } else if items[curpol].node.op == Bang {
        ok := WriteNot(items, e.e);
      } else {
        ok := WriteBinary(items, first, e);
      }
    }

    method WriteNot(items: seq<Item>, ghost a: Expr) returns (ok: bool)
      requires At(items, curpol, Not(a)) && AllInt32(a) && Fits()
      modifies this
      ensures ok <==> Peak(Not(a), false, |old(buf)|) < BUF_MAX
      ensures ok ==> Fits() && curpol == old(curpol) - Size(Not(a)) && buf == old(buf) + Print(Not(a), false)
      decreases curpol, 0
    {
      ok := Put("!", 1);
      if !ok { return; }
      curpol := curpol - 1;
      if items[curpol].node.NOpr? {
        ok := WriteNested(items, a);
        Glue(old(buf), "!", "( " + Print(a, true) + " )");
      } else {
        ok := Write(items, false, a);
        Glue(old(buf), "!", Print(a, false));
      }
    }

    /** The operand of a negation in parentheses. */
    method WriteNested(items: seq<Item>, ghost a: Expr) returns (ok: bool)
      requires At(items, curpol, a) && AllInt32(a) && Fits()
      modifies this
      ensures ok <==> PeakParen(|old(buf)|, Peak(a, true, |old(buf)| + 2), |Print(a, true)|) < BUF_MAX
      ensures ok ==> Fits() && curpol == old(curpol) - Size(a) && buf == old(buf) + ("( " + Print(a, true) + " )")
      decreases curpol, 2
    {
      ok := Put("( ", 2);
      if !ok { return; }
      ok := Write(items, true, a);
      if !ok { return; }
      ok := Put(" )", 2);
      Enclose(old(buf), Print(a, true));
    }

    method WriteBinary(items: seq<Item>, first: bool, ghost e: Expr) returns (ok: bool)
      requires At(items, curpol, e) && IsBinary(e) && AllInt32(e) && Fits()
      modifies this
      ensures ok <==> Peak(e, first, |old(buf)|) < BUF_MAX
      ensures ok ==> Fits() && curpol == old(curpol) - Size(e) && buf == old(buf) + Print(e, first)
      decreases curpol, 0
    {
      var op := items[curpol].node.op;
      curpol := curpol - 1;
      if op == Bar && !first {
        ok := Put("( ", 2);
        if !ok { return; }
        ok := WriteOperands(items, op, e.l, e.r);
        if !ok { return; }
        ok := Put(" )", 2);
        Enclose(old(buf), PrintBinary(e.l, Bar, e.r));
      } else {
        ok := WriteOperands(items, op, e.l, e.r);
      }
    }

    /** Right operand into a buffer of its own, then left operand, operator and that buffer. */
    method WriteOperands(items: seq<Item>, op: Op, ghost l: Expr, ghost r: Expr) returns (ok: bool)
      requires At(items, curpol, r) && At(items, curpol - Size(r), l) && AllInt32(l) && AllInt32(r) && Fits()
      modifies this
      ensures ok <==> PeakBinary(l, r, |old(buf)|) < BUF_MAX
      ensures ok ==> Fits() && curpol == old(curpol) - Size(r) - Size(l) && buf == old(buf) + PrintBinary(l, op, r)
      decreases curpol, 4
    {
      var right;
      ok, right, curpol := RightText(items, curpol, r);
      if !ok { return; }
      ok := Write(items, false, l);
      if !ok { return; }
      ok := Put(" " + [OpChar(op)] + " " + right, 3 + |right|);
      Glue(old(buf), Print(l, false), " " + [OpChar(op)] + " " + right);
    }
  }

  /** A right operand is printed into a buffer that starts with 16 bytes. */
  method RightText(items: seq<Item>, curpol: int, ghost r: Expr) returns (ok: bool, text: string, curpol': int)
    requires At(items, curpol, r) && AllInt32(r)
    ensures ok <==> Peak(r, false, 0) < BUF_MAX
    ensures ok ==> text == Print(r, false) && curpol' == curpol - Size(r)
    decreases curpol, 3
  {
    FirstSizes();
    var nrm := new Infix(curpol, 16);
    ok := nrm.Write(items, false, r);
    assert ok ==> nrm.buf == Print(r, false);
    return ok, nrm.buf, nrm.curpol;
  }

  lemma {:induction false} Glue(a: string, b: string, c: string)
    ensures a + b + c == a + (b + c)
  {
  }

  lemma {:induction false} Enclose(a: string, b: string)
    ensures a + "( " + b + " )" == a + ("( " + b + " )")
  {
    Glue(a, "( ", b);
    Glue(a, "( " + b, " )");
  }

  // ----- The sentence that is printed -----

  function Append(c: Conj, c': Conj): Conj {
    match c'
    case Only(f) => Also(c, f)
    case Also(c'', f) => Also(Append(c, c''), f)
  }

  /** Printed without outer parentheses around `&`, right-nested conjunctions come out flat. */
  function ConjOf(e: Expr): Conj
    decreases e, 0
  {
    match e
    case Val(v) => Only(Num(v))
    case Not(a) => Only(Neg(if a.Val? then Num(a.v) else Paren(DisjOf(a))))
    case And(l, r) => Append(ConjOf(l), ConjOf(r))
    case Or(l, r) => Only(Paren(Alt(One(ConjOf(l)), ConjOf(r))))
  }

  function DisjOf(e: Expr): Disj
    decreases e, 1
  {
    if e.Or? then Alt(One(ConjOf(e.l)), ConjOf(e.r)) else One(ConjOf(e))
  }

  lemma {:induction false} AppendYield(c: Conj, c': Conj)
    ensures YieldC(Append(c, c')) == YieldC(c) + [TOpr(Amp)] + YieldC(c')
  {
    if c'.Also? { AppendYield(c, c'.c); }
  }

  lemma {:induction false} AppendMeaning(c: Conj, c': Conj, s: set<int>)
    ensures Meaning(ExprC(Append(c, c')), s) == (Meaning(ExprC(c), s) && Meaning(ExprC(c'), s))
  {
    if c'.Also? { AppendMeaning(c, c'.c, s); }
  }

  /** Reading the printed sentence gives a query with the same meaning. */
  lemma {:induction false} PrintedMeaning(e: Expr, s: set<int>)
    ensures Meaning(ExprC(ConjOf(e)), s) == Meaning(e, s)
    ensures Meaning(ExprD(DisjOf(e)), s) == Meaning(e, s)
  {
    match e
    case Val(_) =>
    case Not(a) =>
      PrintedMeaning(a, s);
      var g := if a.Val? then Num(a.v) else Paren(DisjOf(a));
      assert ConjOf(e) == Only(Neg(g)) && ExprF(g) == if a.Val? then a else ExprD(DisjOf(a));
      assert ExprC(ConjOf(e)) == Not(ExprF(g));
    case And(l, r) => PrintedMeaning(l, s); PrintedMeaning(r, s); AppendMeaning(ConjOf(l), ConjOf(r), s);
    case Or(l, r) =>
      PrintedMeaning(l, s); PrintedMeaning(r, s);
      assert ExprD(DisjOf(e)) == Or(ExprC(ConjOf(l)), ExprC(ConjOf(r)));
      assert ExprC(ConjOf(e)) == ExprF(Paren(DisjOf(e)));
  }

  /** Every conjunct fits above a pending `|` and a pending `&`. */
  predicate FactsFit(c: Conj) {
    match c
    case Only(f) => FitsF(f, 2)
    case Also(c', f) => FactsFit(c') && FitsF(f, 2)
  }

  lemma {:induction false} FitsLower(f: Fact, h: nat, h': nat)
    requires h' <= h && FitsF(f, h)
    ensures FitsF(f, h')
  {
    if f.Neg? { FitsLower(f.f, h + 1, h' + 1); }
  }

  lemma {:induction false} FactsFitConj(c: Conj, h: nat)
    requires FactsFit(c) && h <= 1
    ensures FitsC(c, h)
  {
    match c
    case Only(f) => FitsLower(f, 2, h);
    case Also(c', f) => FactsFitConj(c', h); FitsLower(f, 2, h + 1);
  }

  lemma {:induction false} AppendFits(c: Conj, c': Conj)
    requires FactsFit(c) && FactsFit(c')
    ensures FactsFit(Append(c, c'))
  {
    if c'.Also? { AppendFits(c, c'.c); }
  }

  /** Printed negations are never stacked, so the operator stack always suffices. */
  lemma {:induction false} PrintedFits(e: Expr)
    ensures FactsFit(ConjOf(e)) && FitsD(DisjOf(e))
  {
    match e {
      case Val(_) =>
      case Not(a) => PrintedFits(a);
      case And(l, r) => PrintedFits(l); PrintedFits(r); AppendFits(ConjOf(l), ConjOf(r));
      case Or(l, r) =>
        PrintedFits(l); PrintedFits(r);
        FactsFitConj(ConjOf(l), 0); FactsFitConj(ConjOf(r), 1);
        assert FitsD(One(ConjOf(l)));
    }
    if !e.Or? { FactsFitConj(ConjOf(e), 0); }
  }

  // ----- Scanning the printed text -----

  /** One-character tokens, with a blank before them. */
  lemma ScanMark(c: char, rest: string, w: Waiting, count: nat, tok: Token, w': Waiting, count': nat)
    requires NextToken([c] + rest, w, count) == Lexed(tok, rest, w', count') && tok != TEnd && tok != TErr
    ensures Stream([c] + rest, w, count) == [tok] + Stream(rest, w', count')
    ensures Stream(" " + ([c] + rest), w, count) == [tok] + Stream(rest, w', count')
  {
    assert (" " + ([c] + rest))[1..] == [c] + rest;
  }

  lemma ScanBlank(rest: string, w: Waiting, count: nat)
    ensures Stream(" " + rest, w, count) == Stream(rest, w, count)
  {
    assert (" " + rest)[1..] == rest;
  }

  lemma ScanOperator(op: Op, rest: string, count: nat)
    requires op != Bang
    ensures Stream(" " + [OpChar(op)] + " " + rest, Operator, count) == [TOpr(op)] + Stream(rest, Operand, count)
  {
    var tail := " " + rest;
    assert ([OpChar(op)] + tail)[1..] == tail;
    ScanMark(OpChar(op), tail, Operator, count, TOpr(op), Operand, count);
    ScanBlank(rest, Operand, count);
    assert " " + [OpChar(op)] + " " + rest == " " + ([OpChar(op)] + tail);
  }

  lemma ScanOpen(rest: string, count: nat)
    ensures Stream("( " + rest, Operand, count) == [TOpen] + Stream(rest, Operand, count + 1)
  {
    var tail := " " + rest;
    assert (['('] + tail)[1..] == tail;
    ScanMark('(', tail, Operand, count, TOpen, Operand, count + 1);
    ScanBlank(rest, Operand, count + 1);
    assert "( " + rest == ['('] + tail;
  }

  lemma ScanClose(rest: string, count: nat)
    ensures Stream(" )" + rest, Operator, count + 1) == [TClose] + Stream(rest, Operator, count)
  {
    assert ([')'] + rest)[1..] == rest;
    ScanMark(')', rest, Operator, count + 1, TClose, Operator, count);
    assert " )" + rest == " " + ([')'] + rest);
  }

  lemma ScanBang(rest: string, count: nat)
    ensures Stream("!" + rest, Operand, count) == [TOpr(Bang)] + Stream(rest, Operand, count)
  {
    assert (['!'] + rest)[1..] == rest;
    ScanMark('!', rest, Operand, count, TOpr(Bang), Operand, count);
  }

  /** Two printed operands around an operator. */
  lemma {:induction false} ScanBinary(l: Expr, r: Expr, op: Op, rest: string, count: nat)
    requires AllInt32(l) && AllInt32(r) && op != Bang && Follows(rest, count)
    ensures Stream(PrintBinary(l, op, r) + rest, Operand, count)
            == YieldC(ConjOf(l)) + [TOpr(op)] + YieldC(ConjOf(r)) + Stream(rest, Operator, count)
    decreases Size(l) + Size(r), 2
  {
    ScanInner(l, Behind(op, Print(r, false) + rest), count);
    ScanInner(r, rest, count);
    ScanJoined(Print(l, false), YieldC(ConjOf(l)), op, Print(r, false), YieldC(ConjOf(r)), rest, count);
  }

  /** An operator and what follows it. */
  function Behind(op: Op, rest: string): string { " " + [OpChar(op)] + " " + rest }

  /** Texts that are scanned as some tokens are so around an operator. */
  lemma {:induction false} ScanJoined(l: string, yl: seq<Token>, op: Op, r: string, yr: seq<Token>,
                                      rest: string, count: nat)
    requires op != Bang
    requires Stream(l + Behind(op, r + rest), Operand, count) == yl + Stream(Behind(op, r + rest), Operator, count)
    requires Stream(r + rest, Operand, count) == yr + Stream(rest, Operator, count)
    ensures Stream(Joined(l, op, r) + rest, Operand, count) == yl + [TOpr(op)] + yr + Stream(rest, Operator, count)
  {
    TextAround(l, OpChar(op), r, rest);
    ScanOperator(op, r + rest, count);
    TokensAround(yl, TOpr(op), yr, Stream(rest, Operator, count));
  }

  lemma {:induction false} TextAround(l: string, c: char, r: string, rest: string)
    ensures l + (" " + [c] + " " + r) + rest == l + (" " + [c] + " " + (r + rest))
  {
    assert " " + [c] + " " + r + rest == " " + [c] + " " + (r + rest);
    assert l + (" " + [c] + " " + r) + rest == l + (" " + [c] + " " + r + rest);
  }

  lemma {:induction false} TokensAround(l: seq<Token>, t: Token, r: seq<Token>, rest: seq<Token>)
    ensures l + ([t] + (r + rest)) == l + [t] + r + rest
  {
    assert [t] + (r + rest) == [t] + r + rest;
    assert l + ([t] + r + rest) == l + [t] + r + rest;
  }

  lemma {:induction false} ScanParen(d: Disj, text: string, rest: string, count: nat)
    requires Stream(text + (" )" + rest), Operand, count + 1)
             == YieldD(d) + Stream(" )" + rest, Operator, count + 1)
    ensures Stream("( " + text + " )" + rest, Operand, count)
            == YieldF(Paren(d)) + Stream(rest, Operator, count)
  {
    ParenText(text, rest);
    ScanOpen(text + (" )" + rest), count);
    ScanClose(rest, count);
    ParenTokens(d, Stream(rest, Operator, count));
  }

  lemma {:induction false} ParenText(text: string, rest: string)
    ensures "( " + text + " )" + rest == "( " + (text + (" )" + rest))
  {
    Glue("( " + text, " )", rest);
    Glue("( ", text, " )" + rest);
  }

  lemma {:induction false} ParenTokens(d: Disj, t: seq<Token>)
    ensures YieldF(Paren(d)) + t == [TOpen] + (YieldD(d) + ([TClose] + t))
  {
    assert YieldF(Paren(d)) == [TOpen] + YieldD(d) + [TClose];
    TokensApart([TOpen], YieldD(d), [TClose], t);
  }

  lemma {:induction false} TokensApart(a: seq<Token>, b: seq<Token>, c: seq<Token>, t: seq<Token>)
    ensures a + b + c + t == a + (b + (c + t))
  {
    assert a + b + c + t == a + b + (c + t);
    assert a + b + (c + t) == a + (b + (c + t));
  }

  /** Printed as an operand, a query is scanned as the tokens of a conjunction. */
  lemma {:induction false} ScanInner(e: Expr, rest: string, count: nat)
    requires AllInt32(e) && Follows(rest, count)
    ensures Stream(Print(e, false) + rest, Operand, count)
            == YieldC(ConjOf(e)) + Stream(rest, Operator, count)
    decreases Size(e), 0
  {
    match e
    case Val(v) => ScanDecimal(v, rest, count);
    case Not(a) => ScanNot(a, rest, count);
    case And(l, r) =>
      ScanBinary(l, r, Amp, rest, count);
      AppendYield(ConjOf(l), ConjOf(r));
    case Or(l, r) =>
      ScanBinary(l, r, Bar, " )" + rest, count + 1);
      assert YieldD(DisjOf(e)) == YieldC(ConjOf(l)) + [TOpr(Bar)] + YieldC(ConjOf(r));
      ScanParen(DisjOf(e), PrintBinary(l, Bar, r), rest, count);
  }

  lemma {:induction false} ScanNot(a: Expr, rest: string, count: nat)
    requires AllInt32(a) && Follows(rest, count)
    ensures Stream(Print(Not(a), false) + rest, Operand, count)
            == YieldC(ConjOf(Not(a))) + Stream(rest, Operator, count)
    decreases Size(a), 2
  {
    if a.Val? {
      ScanDecimal(a.v, rest, count);
      ScanNegation(Num(a.v), Print(a, false), rest, count);
    } else {
      ScanOuter(a, " )" + rest, count + 1);
      ScanParen(DisjOf(a), Print(a, true), rest, count);
      ScanNegation(Paren(DisjOf(a)), "( " + Print(a, true) + " )", rest, count);
    }
  }

  lemma {:induction false} ScanNegation(f: Fact, body: string, rest: string, count: nat)
    requires Stream(body + rest, Operand, count) == YieldF(f) + Stream(rest, Operator, count)
    ensures Stream("!" + body + rest, Operand, count) == YieldC(Only(Neg(f))) + Stream(rest, Operator, count)
  {
    assert "!" + body + rest == "!" + (body + rest);
    ScanBang(body + rest, count);
    NegationYields(f, Stream(rest, Operator, count));
  }

  lemma {:induction false} NegationYields(f: Fact, t: seq<Token>)
    ensures YieldC(Only(Neg(f))) + t == [TOpr(Bang)] + (YieldF(f) + t)
  {
    assert YieldC(Only(Neg(f))) == [TOpr(Bang)] + YieldF(f);
  }

  /** Printed at the outside or inside parentheses, a query is scanned as a whole sentence. */
  lemma {:induction false} ScanOuter(e: Expr, rest: string, count: nat)
    requires AllInt32(e) && Follows(rest, count)
    ensures Stream(Print(e, true) + rest, Operand, count)
            == YieldD(DisjOf(e)) + Stream(rest, Operator, count)
    decreases Size(e), 1
  {
    if e.Or? {
      ScanBinary(e.l, e.r, Bar, rest, count);
      assert YieldD(DisjOf(e)) == YieldC(ConjOf(e.l)) + [TOpr(Bar)] + YieldC(ConjOf(e.r));
    } else {
      assert Print(e, true) == Print(e, false);
      ScanInner(e, rest, count);
    }
  }

  /** The printed text is a sentence that fits the operator stack. */
  lemma PrintedSentence(e: Expr)
    requires AllInt32(e)
    ensures Stream(Print(e, true), Operand, 0) == YieldD(DisjOf(e)) + [TEnd] && FitsD(DisjOf(e))
  {
    var end: string := [];
    ScanOuter(e, end, 0);
    assert Print(e, true) + end == Print(e, true);
    assert Stream(end, Operator, 0) == [NextToken(end, Operator, 0).tok];
    PrintedFits(e);
  }

  /**
   * A printed text always compiles, whatever the nesting, and to a query that every set
   * satisfies exactly when it satisfies the original.
   */
  lemma PrintThenCompile(e: Expr)
    requires AllInt32(e)
    ensures Compile(Print(e, true)) == Done([], Post(ExprD(DisjOf(e))))
    ensures forall s :: Meaning(ExprD(DisjOf(e)), s) == Meaning(e, s)
  {
    PrintedSentence(e);
    PolSentence(DisjOf(e));
    forall s ensures Meaning(ExprD(DisjOf(e)), s) == Meaning(e, s) { PrintedMeaning(e, s); }
  }
}
