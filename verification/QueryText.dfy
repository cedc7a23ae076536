/**
 * Query text: the character scanner `gettoken` and the compiler `makepol` over a shared
 * work state, proved against the token-level compiler and, through it, the grammar.
 */
module QueryText {
  import opened Machine
  import opened BoolQuery

  predicate IsDigit(c: char) { '0' <= c <= '9' }

  /** Text as a C string: the terminator occurs only at its end. */
  predicate CString(s: string) { '\0' !in s }

  // ----- Numbers -----

  function DigitRun(s: string): (n: nat)
    ensures n <= |s|
    ensures forall i | 0 <= i < n :: IsDigit(s[i])
    ensures n < |s| ==> !IsDigit(s[n])
  {
    if s == [] || !IsDigit(s[0]) then 0 else 1 + DigitRun(s[1..])
  }

  lemma RunLength(s: string, n: nat)
    requires n <= |s| && (forall i | 0 <= i < n :: IsDigit(s[i])) && (n < |s| ==> !IsDigit(s[n]))
    ensures DigitRun(s) == n
  {
    if DigitRun(s) != n { assert false; }
  }

  function DigitValue(c: char): int { c as int - '0' as int }

  /** Value of a digit string read in the given base, up to the first digit outside it. */
  function ReadBase(s: string, base: nat, acc: int): int {
    if s == [] || !IsDigit(s[0]) || DigitValue(s[0]) >= base then acc
    else ReadBase(s[1..], base, acc * base + DigitValue(s[0]))
  }

  /** `strtol` with base 0 on an optional sign and digits: a leading zero means octal. */
  function Strtol(s: string): int {
    if s != [] && s[0] == '-' then -Magnitude(s[1..]) else Magnitude(s)
  }

  function Magnitude(s: string): int {
    if s != [] && s[0] == '0' then ReadBase(s, 8, 0) else ReadBase(s, 10, 0)
  }

  /** Room in the scanner's number buffer, terminator included. */
  const BUFFER := 16

  // ----- One token -----

  datatype Lexed = Lexed(tok: Token, rest: string, w: Waiting, count: nat)

  function OperatorOf(c: char): Op { if c == '&' then Amp else Bar }

  /** The token at the start of the text, and the scanner's state behind it. */
  function NextToken(s: string, w: Waiting, count: nat): (l: Lexed)
    ensures |l.rest| <= |s|
    ensures l.tok != TErr && l.tok != TEnd ==> |l.rest| < |s|
    ensures l.tok == TEnd ==> count == 0 && w == Operator
    decreases |s|
  {
    if s != [] && s[0] == ' ' then NextToken(s[1..], w, count) else
    match w
    case Operand =>
      if s == [] then Lexed(TErr, s, w, count)
      else if IsDigit(s[0]) || s[0] == '-' then NumberToken(s, count)
      else if s[0] == '!' then Lexed(TOpr(Bang), s[1..], Operand, count)
      else if s[0] == '(' then Lexed(TOpen, s[1..], Operand, count + 1)
      else Lexed(TErr, s, w, count)
    case Operator =>
      if s == [] then Lexed(if count > 0 then TErr else TEnd, s, w, count)
      else if s[0] == '&' || s[0] == '|' then Lexed(TOpr(OperatorOf(s[0])), s[1..], Operand, count)
      else if s[0] == ')' then
        (if count == 0 then Lexed(TErr, s, w, count) else Lexed(TClose, s[1..], Operator, count - 1))
      else Lexed(TErr, s, w, count)
  }

  function NumberLength(s: string): nat
    requires s != []
  {
    1 + DigitRun(s[1..])
  }

  function NumberToken(s: string, count: nat): Lexed
    requires s != []
  {
    var n := NumberLength(s);
    if n >= BUFFER || !Int32(Strtol(s[..n])) || (count > 0 && n == |s|) then Lexed(TErr, s, Operand, count)
    else Lexed(TVal(Strtol(s[..n])), s[n..], Operator, count)
  }

  /** All tokens of the text, up to the end or the first error. */
  function Stream(s: string, w: Waiting, count: nat): (ts: seq<Token>)
    ensures ts != []
    decreases |s|
  {
    var l := NextToken(s, w, count);
    if l.tok == TEnd || l.tok == TErr then [l.tok] else [l.tok] + Stream(l.rest, l.w, l.count)
  }

  /** What compiling a whole text gives. */
  function Compile(text: string): PolResult { MakePol(Stream(text, Operand, 0), [], []) }

  // ----- Streams and sentences -----

  /** A stream that follows the scanner's discipline until it breaks off with an error. */
  predicate Broken(ts: seq<Token>, w: Waiting, count: nat) {
    ts != [] &&
    match (w, ts[0])
    case (_, TErr) => |ts| == 1
    case (Operand, TVal(_)) => Broken(ts[1..], Operator, count)
    case (Operand, TOpr(op)) => op == Bang && Broken(ts[1..], Operand, count)
    case (Operand, TOpen) => Broken(ts[1..], Operand, count + 1)
    case (Operator, TOpr(op)) => op != Bang && Broken(ts[1..], Operand, count)
    case (Operator, TClose) => count > 0 && Broken(ts[1..], Operator, count - 1)
    case _ => false
  }

  /** A stream that ends well: disciplined tokens, then the end mark. */
  predicate Complete(ts: seq<Token>, w: Waiting, count: nat) {
    ts != [] && ts[|ts| - 1] == TEnd && Disciplined(ts[..|ts| - 1], w, count)
  }

  lemma TokenStep(s: string, w: Waiting, count: nat)
    ensures var l := NextToken(s, w, count);
            match l.tok
            case TVal(_) => w == Operand && l.w == Operator && l.count == count
            case TOpr(op) => (w == Operand <==> op == Bang) && l.w == Operand && l.count == count
            case TOpen => w == Operand && l.w == Operand && l.count == count + 1
            case TClose => w == Operator && l.w == Operator && count > 0 && l.count == count - 1
            case _ => true
    decreases |s|
  {
    if s != [] && s[0] == ' ' { TokenStep(s[1..], w, count); }
  }

  lemma {:induction false} StreamShape(s: string, w: Waiting, count: nat)
    ensures Complete(Stream(s, w, count), w, count) || Broken(Stream(s, w, count), w, count)
    decreases |s|
  {
    var ts, l := Stream(s, w, count), NextToken(s, w, count);
    TokenStep(s, w, count);
    if l.tok == TEnd {
      assert ts[..0] == [];
    } else if l.tok != TErr {
      StreamShape(l.rest, l.w, l.count);
      var rest := Stream(l.rest, l.w, l.count);
      assert ts[1..] == rest;
      assert ts[..|ts| - 1] == [l.tok] + rest[..|rest| - 1];
      assert ts[..|ts| - 1][1..] == rest[..|rest| - 1];
    }
  }

  /** A broken stream is never compiled; at best an inner call returns before the break. */
  lemma {:induction false} BrokenNotDone(ts: seq<Token>, w: Waiting, count: nat, stack: seq<Op>, out: seq<Node>)
    requires Broken(ts, w, count)
    ensures var r := MakePol(ts, stack, out);
            r.Done? ==> count > 0 && Broken(r.rest, Operator, count - 1)
    decreases |ts|
  {
    match ts[0]
    case TVal(v) => BrokenNotDone(ts[1..], Operator, count, Loose(stack), out + [NVal(v)] + Popped(stack));
    case TOpr(op) =>
      BrokenNotDone(ts[1..], Operand, count, stack, out + [NOpr(op)]);
      BrokenNotDone(ts[1..], Operand, count, stack + [op], out);
    case TOpen =>
      BrokenNotDone(ts[1..], Operand, count + 1, [], out);
      var r := MakePol(ts[1..], [], out);
      if r.Done? {
        BrokenNotDone(r.rest, Operator, count, Loose(stack), r.out + Popped(stack));
      }
    case _ =>
  }

  /**
   * A text is compiled if and only if it is a sentence of the grammar that fits the
   * operator stack, and then to the postfix form of the query it denotes.
   */
  lemma CompiledIff(text: string)
    ensures Compile(text).Done? <==> exists d :: Stream(text, Operand, 0) == YieldD(d) + [TEnd] && FitsD(d)
    ensures forall d | Stream(text, Operand, 0) == YieldD(d) + [TEnd] && FitsD(d) ::
              Compile(text) == Done([], Post(ExprD(d)))
  {
    var ts := Stream(text, Operand, 0);
    forall d | ts == YieldD(d) + [TEnd] && FitsD(d) ensures Compile(text) == Done([], Post(ExprD(d))) {
      PolSentence(d);
    }
    StreamShape(text, Operand, 0);
    if Compile(text).Done? {
      if Broken(ts, Operand, 0) {
        BrokenNotDone(ts, Operand, 0, [], []);
        assert false;
      }
      var d := DisciplinedIsSentence(ts[..|ts| - 1]);
      assert ts == YieldD(d) + [TEnd];
      PolSentence(d);
      assert FitsD(d);
    }
  }
}
