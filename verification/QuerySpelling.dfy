/**
 * How queries may be written: the scanner reads exactly the texts in which the tokens of a sentence
 * follow each other with any number of blanks, or none, around them.
 */
module QuerySpelling {
  import opened Machine
  import opened BoolQuery
  import opened QueryText
  import opened QueryPrint
  import opened QueryIO

  // ----- Texts as words and blanks -----

  /** A digit or a sign, and digits; at most fifteen characters. */
  predicate NumberWord(w: string) {
    0 < |w| <= 15 && (IsDigit(w[0]) || w[0] == '-') && forall i | 1 <= i < |w| :: IsDigit(w[i])
  }

  predicate Spells(w: string, t: Token) {
    match t
    case TVal(v) => NumberWord(w) && Strtol(w) == v && Int32(v)
    case TOpr(op) => w == [OpChar(op)]
    case TOpen => w == "("
    case TClose => w == ")"
    case _ => false
  }

  /** A word with the number of blanks in front of it. */
  datatype Written = Written(gap: nat, word: string)

  function Blanks(n: nat): string { if n == 0 then "" else " " + Blanks(n - 1) }

  /** The words with their blanks, and blanks at the end. */
  function Text(ws: seq<Written>, last: nat): string {
    if ws == [] then Blanks(last) else Blanks(ws[0].gap) + (ws[0].word + Text(ws[1..], last))
  }

  ghost predicate SpellsAll(ws: seq<Written>, ts: seq<Token>) {
    |ws| == |ts| && forall i | 0 <= i < |ws| :: Spells(ws[i].word, ts[i])
  }

  /** The text is some spelling of the tokens. */
  ghost predicate Spelling(text: string, ts: seq<Token>) {
    exists ws, last :: SpellsAll(ws, ts) && text == Text(ws, last)
  }

  /** A derivation of the query that fits the operator stack, and whose tokens the text spells. */
  ghost predicate SentenceFor(d: Disj, text: string, e: Expr) {
    FitsD(d) && ExprD(d) == e && Spelling(text, YieldD(d))
  }

  // ----- Words are read as their tokens -----

  lemma {:induction false} SkipBlanks(n: nat, s: string, w: Waiting, count: nat)
    ensures NextToken(Blanks(n) + s, w, count) == NextToken(s, w, count)
  {
    if n == 0 {
      assert Blanks(n) + s == s;
    } else {
      assert (Blanks(n) + s)[1..] == Blanks(n - 1) + s;
      SkipBlanks(n - 1, s, w, count);
    }
  }

  /** A number in front of anything but a digit is read as its value; open parentheses need more text. */
  lemma {:induction false} NumberIsRead(word: string, v: int, rest: string, count: nat)
    requires Spells(word, TVal(v)) && (rest == [] || !IsDigit(rest[0]))
    ensures var l := NextToken(word + rest, Operand, count);
            if count > 0 && rest == [] then l.tok == TErr else l == Lexed(TVal(v), rest, Operator, count)
  {
    var s, n := word + rest, |word|;
    assert forall i | 0 <= i < n - 1 :: s[1..][i] == word[i + 1];
    RunLength(s[1..], n - 1);
    assert s[..n] == word && s[n..] == rest;
  }

  /** Every other token is one character. */
  lemma {:induction false} MarkIsRead(word: string, t: Token, ts: seq<Token>, rest: string, w: Waiting, count: nat)
    requires Spells(word, t) && !t.TVal? && Disciplined([t] + ts, w, count)
    ensures var l := NextToken(word + rest, w, count);
            l.tok == t && l.rest == rest && Disciplined(ts, l.w, l.count)
  {
    assert (word + rest)[0] == word[0] && (word + rest)[1..] == rest;
    assert ([t] + ts)[1..] == ts;
  }

  /** What follows a number does not begin with a digit. */
  lemma {:induction false} AfterNumber(ws: seq<Written>, ts: seq<Token>, last: nat, count: nat)
    requires SpellsAll(ws, ts) && Disciplined(ts, Operator, count)
    ensures var s := Text(ws, last); (s == [] || !IsDigit(s[0])) && (s == [] ==> count == 0)
  {
    if ws != [] { assert Spells(ws[0].word, ts[0]); }
  }

  /** Any spacing of any spelling of disciplined tokens is read as these tokens. */
  lemma {:induction false} TextIsRead(ws: seq<Written>, ts: seq<Token>, last: nat, w: Waiting, count: nat)
    requires SpellsAll(ws, ts) && Disciplined(ts, w, count)
    ensures Stream(Text(ws, last), w, count) == ts + [TEnd]
    decreases |ws|
  {
    var s := Text(ws, last);
    if ws == [] {
      var end: string := [];
      SkipBlanks(last, end, w, count);
      assert Blanks(last) + end == s;
    } else {
      var rest := Text(ws[1..], last);
      assert Spells(ws[0].word, ts[0]) && ts == [ts[0]] + ts[1..];
      SkipBlanks(ws[0].gap, ws[0].word + rest, w, count);
      if ts[0].TVal? {
        AfterNumber(ws[1..], ts[1..], last, count);
        NumberIsRead(ws[0].word, ts[0].v, rest, count);
      } else {
        MarkIsRead(ws[0].word, ts[0], ts[1..], rest, w, count);
      }
      var l := NextToken(s, w, count);
      TextIsRead(ws[1..], ts[1..], last, l.w, l.count);
    }
  }

  // ----- Nothing else is read -----

  /** A token that is read is spelled by what was read of the text. */
  lemma {:induction false} ReadIsSpelled(s: string, w: Waiting, count: nat) returns (word: string)
    requires s != [] && s[0] != ' '
    requires var t := NextToken(s, w, count).tok; t != TErr && t != TEnd
    ensures var l := NextToken(s, w, count); s == word + l.rest && Spells(word, l.tok)
  {
    var l := NextToken(s, w, count);
    word := s[..|s| - |l.rest|];
    if l.tok.TVal? {
      var n := NumberLength(s);
      assert word == s[..n];
      forall i | 1 <= i < n ensures IsDigit(word[i]) { assert word[i] == s[1..][i - 1]; }
    }
  }

  lemma {:induction false} StreamIsText(s: string, ts: seq<Token>, w: Waiting, count: nat)
    returns (ws: seq<Written>, last: nat)
    requires Stream(s, w, count) == ts + [TEnd]
    ensures SpellsAll(ws, ts) && s == Text(ws, last)
    decreases |s|
  {
    var l := NextToken(s, w, count);
    if s != [] && s[0] == ' ' {
      ws, last := StreamIsText(s[1..], ts, w, count);
      if ws == [] {
        last := last + 1;
      } else {
        assert Spells(ws[0].word, ts[0]);
        ws := [ws[0].(gap := ws[0].gap + 1)] + ws[1..];
      }
    } else if l.tok == TEnd {
      ws, last := [], 0;
      assert |ts| == 0;
    } else {
      assert (ts + [TEnd])[0] == l.tok && l.tok != TErr && |ts| > 0;
      assert Stream(s, w, count)[1..] == ts[1..] + [TEnd];
      var word := ReadIsSpelled(s, w, count);
      ws, last := StreamIsText(l.rest, ts[1..], l.w, l.count);
      ws := [Written(0, word)] + ws;
    }
  }

  /** The scanner reads `ts` to the end exactly from the spellings of `ts`. */
  lemma {:induction false} SpellingIff(text: string, ts: seq<Token>)
    ensures Stream(text, Operand, 0) == ts + [TEnd] <==> Disciplined(ts, Operand, 0) && Spelling(text, ts)
  {
    if Stream(text, Operand, 0) == ts + [TEnd] {
      StreamShape(text, Operand, 0);
      var ws, last := StreamIsText(text, ts, Operand, 0);
      assert (ts + [TEnd])[..|ts|] == ts;
      NotBroken(ts, Operand, 0);
    }
    if Disciplined(ts, Operand, 0) {
      forall ws, last | SpellsAll(ws, ts) && text == Text(ws, last) ensures Stream(text, Operand, 0) == ts + [TEnd] {
        TextIsRead(ws, ts, last, Operand, 0);
      }
    }
  }

  lemma {:induction false} NotBroken(ts: seq<Token>, w: Waiting, count: nat)
    ensures !Broken(ts + [TEnd], w, count)
    decreases |ts|
  {
    if ts != [] {
      var rest := ts[1..];
      assert (ts + [TEnd])[1..] == rest + [TEnd];
      NotBroken(rest, Operand, count);
      NotBroken(rest, Operator, count);
      NotBroken(rest, Operand, count + 1);
      if count > 0 { NotBroken(rest, Operator, count - 1); }
    }
  }

  /** A text denotes a query exactly if it spells a sentence for it that fits the operator stack. */
  lemma {:induction false} DenotesIff(text: string, e: Expr)
    ensures Denotes(text, e) <==> exists d :: SentenceFor(d, text, e)
  {
    if Denotes(text, e) {
      var d :| Stream(text, Operand, 0) == YieldD(d) + [TEnd] && FitsD(d) && ExprD(d) == e;
      SpellingIff(text, YieldD(d));
      assert SentenceFor(d, text, e);
    }
    forall d | SentenceFor(d, text, e) ensures Denotes(text, e) {
      SentenceDisciplined(d);
      SpellingIff(text, YieldD(d));
    }
  }

  lemma {:induction false} SentenceDisciplined(d: Disj)
    ensures Disciplined(YieldD(d), Operand, 0)
  {
    var none: seq<Token> := [];
    DisjDisciplined(d, none, 0);
    assert YieldD(d) + none == YieldD(d);
  }

  // ----- Decimal and octal numbers -----

  lemma {:induction false} DecimalSpells(v: int)
    requires Int32(v)
    ensures Spells(Decimal(v), TVal(v))
  {
    StrtolOfDecimal(v);
    var n := if v < 0 then -v else v;
    TenDigits(n);
    forall i | 1 <= i < |Decimal(v)| ensures IsDigit(Decimal(v)[i]) {
      assert Decimal(v)[i] in Digits(n);
    }
    assert Digits(n)[0] in Digits(n);
  }

  function OctalDigits(n: nat): (s: string)
    ensures s != [] && forall c | c in s :: IsDigit(c)
  {
    if n < 8 then [DigitChar(n)] else OctalDigits(n / 8) + [DigitChar(n % 8)]
  }

  lemma {:induction false} ReadOctal(n: nat, rest: string)
    ensures ReadBase(OctalDigits(n) + rest, 8, 0) == ReadBase(rest, 8, n)
  {
    var last := if n < 8 then n else n % 8;
    assert ([DigitChar(last)] + rest)[1..] == rest;
    if n >= 8 {
      assert OctalDigits(n) + rest == OctalDigits(n / 8) + ([DigitChar(last)] + rest);
      ReadOctal(n / 8, [DigitChar(last)] + rest);
    }
  }

  lemma {:induction false} OctalLength(n: nat, k: nat)
    requires k >= 1 && n < Pow8(k)
    ensures |OctalDigits(n)| <= k
  {
    if n >= 8 { OctalLength(n / 8, k - 1); }
  }

  function Pow8(k: nat): nat { if k == 0 then 1 else 8 * Pow8(k - 1) }

  /** A leading zero makes a number octal. */
  lemma {:induction false} OctalSpells(n: nat)
    requires Int32(n)
    ensures Spells("0" + OctalDigits(n), TVal(n))
  {
    var s := "0" + OctalDigits(n);
    assert s[1..] == OctalDigits(n);
    var end: string := [];
    assert OctalDigits(n) + end == OctalDigits(n);
    ReadOctal(n, end);
    assert Pow8(5) == 32768;
    assert Pow8(11) == 8 * (8 * (8 * (8 * (8 * (8 * Pow8(5))))));
    OctalLength(n, 11);
    forall i | 1 <= i < |s| ensures IsDigit(s[i]) { assert s[i] in OctalDigits(n); }
  }

  // ----- Every sentence, in every spacing -----

  ghost predicate Ints(ts: seq<Token>) { forall t | t in ts :: t.TVal? ==> Int32(t.v) }

  /** The usual spelling of a token. */
  function Word(t: Token): string {
    match t
    case TVal(v) => Decimal(v)
    case TOpr(op) => [OpChar(op)]
    case TOpen => "("
    case TClose => ")"
    case _ => ""
  }

  /** The words of the tokens with the given numbers of blanks in front of them. */
  function Spaced(ts: seq<Token>, gaps: seq<nat>): (ws: seq<Written>)
    requires |gaps| == |ts|
    ensures |ws| == |ts| && forall i | 0 <= i < |ts| :: ws[i] == Written(gaps[i], Word(ts[i]))
  {
    if ts == [] then [] else [Written(gaps[0], Word(ts[0]))] + Spaced(ts[1..], gaps[1..])
  }

  lemma {:induction false} TokenOfSentence(ts: seq<Token>, w: Waiting, count: nat, i: nat)
    requires Disciplined(ts, w, count) && i < |ts|
    ensures ts[i] != TEnd && ts[i] != TErr
    decreases |ts|
  {
    if i > 0 {
      var w', count' := After(ts, w, count);
      TokenOfSentence(ts[1..], w', count', i - 1);
    }
  }

  lemma {:induction false} After(ts: seq<Token>, w: Waiting, count: nat) returns (w': Waiting, count': nat)
    requires Disciplined(ts, w, count) && ts != []
    ensures Disciplined(ts[1..], w', count')
  {
    w', count' := Operand, count;
    match ts[0]
    case TVal(_) => w' := Operator;
    case TOpen => count' := count + 1;
    case TClose => w', count' := Operator, count - 1;
    case _ =>
  }

  /** Every sentence that fits the operator stack is denoted by its tokens, however they are spaced. */
  lemma {:induction false} SentenceDenoted(d: Disj, gaps: seq<nat>, last: nat)
    requires Ints(YieldD(d)) && FitsD(d) && |gaps| == |YieldD(d)|
    ensures var text := Text(Spaced(YieldD(d), gaps), last); CString(text) && Denotes(text, ExprD(d))
  {
    var ts := YieldD(d);
    var ws := Spaced(ts, gaps);
    SentenceDisciplined(d);
    forall i | 0 <= i < |ws| ensures Spells(ws[i].word, ts[i]) {
      TokenOfSentence(ts, Operand, 0, i);
      assert ts[i] in ts;
      if ts[i].TVal? { DecimalSpells(ts[i].v); }
    }
    assert SpellsAll(ws, ts);
    TextIsCString(ws, ts, last);
    assert SentenceFor(d, Text(ws, last), ExprD(d));
    DenotesIff(Text(ws, last), ExprD(d));
  }

  lemma {:induction false} WordIsCString(w: string, t: Token)
    requires Spells(w, t)
    ensures CString(w)
  {
    if t.TVal? {
      forall i | 0 <= i < |w| ensures w[i] != '\0' { assert i == 0 || IsDigit(w[i]); }
    }
  }

  lemma {:induction false} BlanksAreCString(n: nat)
    ensures CString(Blanks(n))
  {
    if n > 0 { BlanksAreCString(n - 1); }
  }

  lemma {:induction false} TextIsCString(ws: seq<Written>, ts: seq<Token>, last: nat)
    requires SpellsAll(ws, ts)
    ensures CString(Text(ws, last))
    decreases |ws|
  {
    if ws == [] {
      BlanksAreCString(last);
    } else {
      BlanksAreCString(ws[0].gap);
      WordIsCString(ws[0].word, ts[0]);
      TextIsCString(ws[1..], ts[1..], last);
    }
  }
}
