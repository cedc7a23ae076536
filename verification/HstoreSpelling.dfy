/**
 * How an hstore may be written: the parser accepts exactly the texts made of keys, arrows, values and
 * commas with any blanks around them, where a word is quoted or bare and any byte may be escaped, and
 * reads from them the pairs that are written there. What the printer writes is one of these texts.
 */
module HstoreSpelling {
  import opened Options
  import opened Bytea
  import opened HstorePairs
  import opened HstoreText

  // ----- Words -----

  /** One byte of a word, as itself or behind a backslash. */
  datatype Letter = Bare(b: byte) | Slashed(b: byte)

  datatype Spelling = InQuotes(ls: seq<Letter>) | Plain(ls: seq<Letter>)

  function LetterText(l: Letter): bytes { if l.Bare? then [l.b] else [BACKSLASH, l.b] }

  /** The letters, and the text behind them. */
  function LettersText(ls: seq<Letter>, rest: bytes): bytes {
    if ls == [] then rest else LetterText(ls[0]) + LettersText(ls[1..], rest)
  }

  function SpellingText(sp: Spelling, rest: bytes): bytes {
    if sp.Plain? then LettersText(sp.ls, rest) else [QUOTE] + LettersText(sp.ls, [QUOTE] + rest)
  }

  function WordOf(ls: seq<Letter>): bytes { if ls == [] then [] else [ls[0].b] + WordOf(ls[1..]) }

  predicate QuotedLetter(l: Letter) { l.b != 0 && (l.Bare? ==> l.b != QUOTE && l.b != BACKSLASH) }

  /** A letter inside a bare word: an equals sign ends a key, a comma a value. */
  predicate PlainLetter(l: Letter, value: bool) {
    l.b != 0 && (l.Bare? ==> !IsSpace(l.b) && l.b != BACKSLASH && l.b != if value then COMMA else EQUALS)
  }

  /** The first letter of a bare word; a value may begin with a comma. */
  predicate FirstLetter(l: Letter, value: bool) {
    l.b != 0 && (l.Bare? ==> !IsSpace(l.b) && l.b != BACKSLASH && l.b != QUOTE && (!value ==> l.b != EQUALS))
  }

  predicate LetterOk(l: Letter, quoted: bool, value: bool) { if quoted then QuotedLetter(l) else PlainLetter(l, value) }

  predicate LettersOk(ls: seq<Letter>, quoted: bool, value: bool) {
    ls == [] || (LetterOk(ls[0], quoted, value) && LettersOk(ls[1..], quoted, value))
  }

  predicate SpellingOk(sp: Spelling, value: bool) {
    if sp.InQuotes? then LettersOk(sp.ls, true, value)
    else sp.ls != [] && FirstLetter(sp.ls[0], value) && LettersOk(sp.ls[1..], false, value)
  }

  /** What ends a bare word. */
  predicate EndsWord(c: byte, value: bool) { c == 0 || IsSpace(c) || c == if value then COMMA else EQUALS }

  /** A bare word has a byte behind it that ends it. */
  predicate Delimited(sp: Spelling, rest: bytes, value: bool) { sp.Plain? ==> EndsWord(Head(rest), value) }

  // ----- A written word is read -----

  /** Inside a word. */
  function Inside(quoted: bool): LexState { if quoted then InEscVal else InVal }

  lemma {:induction false} ReadLetter(l: Letter, rest: bytes, word: bytes, quoted: bool, value: bool)
    requires LetterOk(l, quoted, value)
    ensures Lex(LetterText(l) + rest, Inside(quoted), word, quoted, value)
         == Lex(rest, Inside(quoted), word + [l.b], quoted, value)
  {
    var s := LetterText(l) + rest;
    if l.Bare? {
      assert s[1..] == rest;
    } else {
      assert s[1..] == [l.b] + rest;
      assert ([l.b] + rest)[1..] == rest;
    }
  }

  lemma {:induction false} ReadLetters(ls: seq<Letter>, rest: bytes, word: bytes, quoted: bool, value: bool)
    requires LettersOk(ls, quoted, value)
    ensures Lex(LettersText(ls, rest), Inside(quoted), word, quoted, value)
         == Lex(rest, Inside(quoted), word + WordOf(ls), quoted, value)
    decreases |ls|
  {
    if ls == [] {
      assert word + WordOf(ls) == word;
    } else {
      ReadLetter(ls[0], LettersText(ls[1..], rest), word, quoted, value);
      ReadLetters(ls[1..], rest, word + [ls[0].b], quoted, value);
      assert word + [ls[0].b] + WordOf(ls[1..]) == word + WordOf(ls);
    }
  }

  /** Where the parser goes on behind a word: a blank that ends it is passed. */
  function Onward(sp: Spelling, rest: bytes): bytes {
    if sp.Plain? && IsSpace(Head(rest)) then rest[1..] else rest
  }

  lemma {:induction false} ReadFirst(l: Letter, rest: bytes, value: bool)
    requires FirstLetter(l, value)
    ensures Lex(LetterText(l) + rest, WaitVal, [], false, value) == Lex(rest, InVal, [l.b], false, value)
  {
    var s, word: bytes := LetterText(l) + rest, [];
    assert word + [l.b] == [l.b];
    if l.Bare? {
      assert s[1..] == rest;
    } else {
      assert s[1..] == [l.b] + rest;
      assert ([l.b] + rest)[1..] == rest;
    }
  }

  /** A word is read from every way to write it, up to a byte that ends it. */
  lemma {:induction false} ReadWord(sp: Spelling, rest: bytes, value: bool)
    requires SpellingOk(sp, value) && Delimited(sp, rest, value)
    ensures Lex(SpellingText(sp, rest), WaitVal, [], false, value)
         == Word(WordOf(sp.ls), sp.InQuotes?, Onward(sp, rest))
  {
    var ls := sp.ls;
    if sp.Plain? {
      ReadFirst(ls[0], LettersText(ls[1..], rest), value);
      ReadLetters(ls[1..], rest, [ls[0].b], false, value);
    } else {
      var word: bytes, s := [], LettersText(ls, [QUOTE] + rest);
      assert ([QUOTE] + s)[1..] == s && ([QUOTE] + rest)[1..] == rest;
      ReadLetters(ls, [QUOTE] + rest, word, true, value);
      assert word + WordOf(ls) == WordOf(ls);
    }
  }

  // ----- Pairs -----

  /** A key, an arrow and a value, with blanks around them. */
  datatype Entry = Entry(before: bytes, key: Spelling, mid: bytes, after: bytes, val: Spelling, behind: bytes)

  predicate Blank(s: bytes) { s == [] || (IsSpace(s[0]) && Blank(s[1..])) }

  function ValueText(e: Entry, rest: bytes): bytes { e.after + SpellingText(e.val, e.behind + rest) }

  function EntryText(e: Entry, rest: bytes): bytes {
    e.before + SpellingText(e.key, e.mid + (ARROW + ValueText(e, rest)))
  }

  predicate EntryOk(e: Entry) {
    && Blank(e.before) && Blank(e.mid) && Blank(e.after) && Blank(e.behind)
    && SpellingOk(e.key, false) && SpellingOk(e.val, true)
    && |WordOf(e.key.ls)| <= MAX_LEN && |WordOf(e.val.ls)| <= MAX_LEN
  }

  /** The word null, with small or capital letters. */
  predicate NullInAnyCase(w: bytes) {
    |w| == 4 && w[0] in {110, 78} && w[1] in {117, 85} && w[2] in {108, 76} && w[3] in {108, 76}
  }

  /** The pair that is written: a bare null is no value. */
  function PairOf(e: Entry): Pair {
    var w := WordOf(e.val.ls);
    Pair(WordOf(e.key.ls), if e.val.Plain? && NullInAnyCase(w) then None else Some(w))
  }

  function PairsOf(es: seq<Entry>): seq<Pair> { if es == [] then [] else [PairOf(es[0])] + PairsOf(es[1..]) }

  /** Entries with commas between them; there may be one comma too many at the end, and blanks behind it. */
  function Written(es: seq<Entry>, comma: bool, last: bytes): bytes {
    if es == [] then last
    else EntryText(es[0], if |es| == 1 && !comma then [] else [COMMA] + Written(es[1..], comma, last))
  }

  predicate AllOk(es: seq<Entry>) { es == [] || (EntryOk(es[0]) && AllOk(es[1..])) }

  // ----- Written pairs are read -----

  lemma {:induction false} SkipToWord(s: bytes, rest: bytes, value: bool)
    requires Blank(s)
    ensures Lex(s + rest, WaitVal, [], false, value) == Lex(rest, WaitVal, [], false, value)
    decreases |s|
  {
    if s == [] {
      assert s + rest == rest;
    } else {
      assert (s + rest)[1..] == s[1..] + rest;
      SkipToWord(s[1..], rest, value);
    }
  }

  lemma {:induction false} SkipBlanks(s: bytes, rest: bytes, st: ParseState, key: bytes, pairs: seq<Pair>)
    requires Blank(s) && (st == WEq || st == WDel)
    ensures Parse(s + rest, st, key, pairs) == Parse(rest, st, key, pairs)
    decreases |s|
  {
    if s == [] {
      assert s + rest == rest;
    } else {
      assert (s + rest)[1..] == s[1..] + rest;
      SkipBlanks(s[1..], rest, st, key, pairs);
    }
  }

  /** A blank that ended a word makes no difference to what follows it. */
  lemma {:induction false} OnwardSame(sp: Spelling, rest: bytes, st: ParseState, key: bytes, pairs: seq<Pair>)
    requires st == WEq || st == WDel
    ensures Parse(Onward(sp, rest), st, key, pairs) == Parse(rest, st, key, pairs)
  {
  }

  lemma {:induction false} ReadKey(before: bytes, sp: Spelling, rest: bytes, key: bytes, pairs: seq<Pair>)
    requires Blank(before) && SpellingOk(sp, false) && |WordOf(sp.ls)| <= MAX_LEN && Delimited(sp, rest, false)
    ensures Parse(before + SpellingText(sp, rest), WKey, key, pairs) == Parse(rest, WEq, WordOf(sp.ls), pairs)
  {
    SkipToWord(before, SpellingText(sp, rest), false);
    ReadWord(sp, rest, false);
    OnwardSame(sp, rest, WEq, WordOf(sp.ls), pairs);
  }

  lemma {:induction false} ReadValue(after: bytes, sp: Spelling, rest: bytes, key: bytes, pairs: seq<Pair>)
    requires Blank(after) && SpellingOk(sp, true) && |WordOf(sp.ls)| <= MAX_LEN && Delimited(sp, rest, true)
    ensures Parse(after + SpellingText(sp, rest), WVal, key, pairs)
         == Parse(rest, WDel, key, pairs + [Pair(key, ValueOfWord(WordOf(sp.ls), sp.InQuotes?))])
  {
    SkipToWord(after, SpellingText(sp, rest), true);
    ReadWord(sp, rest, true);
    OnwardSame(sp, rest, WDel, key, pairs + [Pair(key, ValueOfWord(WordOf(sp.ls), sp.InQuotes?))]);
  }

  lemma {:induction false} HeadOf(s: bytes, rest: bytes)
    ensures Head(s + rest) == if s == [] then Head(rest) else s[0]
  {
    if s == [] { assert s + rest == rest; }
  }

  lemma {:induction false} ReadArrow(mid: bytes, rest: bytes, key: bytes, pairs: seq<Pair>)
    requires Blank(mid)
    ensures Parse(mid + (ARROW + rest), WEq, key, pairs) == Parse(rest, WVal, key, pairs)
  {
    SkipBlanks(mid, ARROW + rest, WEq, key, pairs);
    assert (ARROW + rest)[1..] == [GREATER] + rest;
    assert ([GREATER] + rest)[1..] == rest;
    assert Parse(ARROW + rest, WEq, key, pairs) == Parse([GREATER] + rest, WGt, key, pairs);
  }

  lemma {:induction false} NullEitherWay(w: bytes)
    ensures SpellsNull(w) <==> NullInAnyCase(w)
  {
  }

  /** An entry is read in front of a comma or the end. */
  lemma {:induction false} ReadEntry(e: Entry, rest: bytes, key: bytes, pairs: seq<Pair>)
    requires EntryOk(e) && Head(rest) in {0, COMMA}
    ensures Parse(EntryText(e, rest), WKey, key, pairs) == Parse(rest, WDel, PairOf(e).key, pairs + [PairOf(e)])
  {
    var p, v := PairOf(e), ValueText(e, rest);
    HeadOf(e.mid, ARROW + v);
    HeadOf(ARROW, v);
    ReadKey(e.before, e.key, e.mid + (ARROW + v), key, pairs);
    ReadArrow(e.mid, v, p.key, pairs);
    HeadOf(e.behind, rest);
    NullEitherWay(WordOf(e.val.ls));
    ReadValue(e.after, e.val, e.behind + rest, p.key, pairs);
    SkipBlanks(e.behind, rest, WDel, p.key, pairs + [p]);
  }

  lemma {:induction false} ReadWritten(es: seq<Entry>, comma: bool, last: bytes, key: bytes, pairs: seq<Pair>)
    requires AllOk(es) && Blank(last)
    ensures Parse(Written(es, comma, last), WKey, key, pairs) == Some(pairs + PairsOf(es))
    decreases |es|
  {
    if es == [] {
      var end: bytes := [];
      assert last + end == last;
      SkipToWord(last, end, false);
      assert pairs + PairsOf(es) == pairs;
    } else {
      var e := es[0];
      assert pairs + PairsOf(es) == pairs + [PairOf(e)] + PairsOf(es[1..]);
      if |es| == 1 && !comma {
        ReadEntry(e, [], key, pairs);
        assert pairs + [PairOf(e)] + PairsOf(es[1..]) == pairs + [PairOf(e)];
      } else {
        var rest := Written(es[1..], comma, last);
        ReadEntry(e, [COMMA] + rest, key, pairs);
        assert ([COMMA] + rest)[1..] == rest;
        ReadWritten(es[1..], comma, last, PairOf(e).key, pairs + [PairOf(e)]);
      }
    }
  }

  // ----- What is read is written -----

  /** The letters that have been read when a word ends. */
  lemma {:induction false} LettersRead(s: bytes, word: bytes, quoted: bool, value: bool)
    returns (ls: seq<Letter>, rest: bytes)
    requires NoZero(s) && Lex(s, Inside(quoted), word, quoted, value).Word?
    ensures s == LettersText(ls, rest) && LettersOk(ls, quoted, value) && NoZero(rest)
    ensures if quoted then Head(rest) == QUOTE else EndsWord(Head(rest), value)
    decreases |s|
  {
    ls, rest := [], s;
    if !(if quoted then Head(s) == QUOTE else EndsWord(Head(s), value)) {
      var l, t := NextLetter(s);
      ReadLetter(l, t, word, quoted, value);
      ls, rest := LettersRead(t, word + [l.b], quoted, value);
      ls := [l] + ls;
    }
  }

  lemma {:induction false} NextLetter(s: bytes) returns (l: Letter, rest: bytes)
    requires NoZero(s) && s != [] && (s[0] == BACKSLASH ==> |s| > 1)
    ensures s == LetterText(l) + rest && l.b != 0 && NoZero(rest)
    ensures if s[0] == BACKSLASH then l.Slashed? else l == Bare(s[0])
  {
    if s[0] == BACKSLASH {
      l, rest := Slashed(s[1]), s[2..];
      assert s[1] in s;
    } else {
      l, rest := Bare(s[0]), s[1..];
      assert s[0] in s;
    }
  }

  /** A word that is read is written in front of the text that is left. */
  lemma {:induction false} WordIsWritten(s: bytes, value: bool) returns (sp: Spelling, rest: bytes)
    requires NoZero(s) && !IsSpace(Head(s)) && Lex(s, WaitVal, [], false, value).Word?
    ensures s == SpellingText(sp, rest) && SpellingOk(sp, value) && Delimited(sp, rest, value) && NoZero(rest)
  {
    var ls;
    if Head(s) == QUOTE {
      ls, rest := LettersRead(s[1..], [], true, value);
      assert rest == [QUOTE] + rest[1..];
      sp, rest := InQuotes(ls), rest[1..];
    } else {
      var l, t := NextLetter(s);
      ReadFirst(l, t, value);
      ls, rest := LettersRead(t, [l.b], false, value);
      assert ([l] + ls)[1..] == ls;
      sp := Plain([l] + ls);
    }
  }

  lemma {:induction false} BlanksOf(s: bytes) returns (b: bytes, rest: bytes)
    requires NoZero(s)
    ensures s == b + rest && Blank(b) && !IsSpace(Head(rest)) && NoZero(rest)
    decreases |s|
  {
    b, rest := [], s;
    if IsSpace(Head(s)) {
      b, rest := BlanksOf(s[1..]);
      assert ([s[0]] + b)[1..] == b;
      b := [s[0]] + b;
    }
  }

  /** Blanks and a word. */
  lemma {:induction false} SpacedWord(s: bytes, value: bool) returns (b: bytes, sp: Spelling, rest: bytes)
    requires NoZero(s) && Lex(s, WaitVal, [], false, value).Word?
    ensures s == b + SpellingText(sp, rest) && Blank(b) && SpellingOk(sp, value)
    ensures Delimited(sp, rest, value) && NoZero(rest)
    ensures Lex(s, WaitVal, [], false, value).word == WordOf(sp.ls)
  {
    var t;
    b, t := BlanksOf(s);
    SkipToWord(b, t, value);
    sp, rest := WordIsWritten(t, value);
    ReadWord(sp, rest, value);
  }

  /** Blanks and an arrow. */
  lemma {:induction false} ArrowIsWritten(s: bytes, key: bytes, pairs: seq<Pair>) returns (mid: bytes, rest: bytes)
    requires NoZero(s) && Parse(s, WEq, key, pairs).Some?
    ensures s == mid + (ARROW + rest) && Blank(mid) && NoZero(rest)
  {
    var t;
    mid, t := BlanksOf(s);
    SkipBlanks(mid, t, WEq, key, pairs);
    assert Parse(t, WEq, key, pairs) == Parse(t[1..], WGt, key, pairs);
    rest := t[2..];
    assert t == ARROW + rest;
  }

  lemma {:induction false} KeyIsWritten(s: bytes, key: bytes, pairs: seq<Pair>)
    returns (before: bytes, sp: Spelling, mid: bytes, rest: bytes)
    requires NoZero(s) && Parse(s, WKey, key, pairs).Some? && Lex(s, WaitVal, [], false, false).Word?
    ensures s == before + SpellingText(sp, mid + (ARROW + rest)) && NoZero(rest)
    ensures Blank(before) && SpellingOk(sp, false) && |WordOf(sp.ls)| <= MAX_LEN && Blank(mid)
    ensures Parse(rest, WVal, WordOf(sp.ls), pairs).Some?
  {
    var t;
    before, sp, t := SpacedWord(s, false);
    ReadKey(before, sp, t, key, pairs);
    mid, rest := ArrowIsWritten(t, WordOf(sp.ls), pairs);
    ReadArrow(mid, rest, WordOf(sp.ls), pairs);
  }

  lemma {:induction false} ValueIsWritten(s: bytes, key: bytes, pairs: seq<Pair>)
    returns (after: bytes, sp: Spelling, behind: bytes, rest: bytes)
    requires NoZero(s) && Parse(s, WVal, key, pairs).Some?
    ensures s == after + SpellingText(sp, behind + rest) && NoZero(rest) && Head(rest) in {0, COMMA}
    ensures Blank(after) && SpellingOk(sp, true) && |WordOf(sp.ls)| <= MAX_LEN && Blank(behind)
  {
    var t;
    after, sp, t := SpacedWord(s, true);
    ReadValue(after, sp, t, key, pairs);
    behind, rest := BlanksOf(t);
    SkipBlanks(behind, rest, WDel, key, pairs + [Pair(key, ValueOfWord(WordOf(sp.ls), sp.InQuotes?))]);
  }

  lemma {:induction false} EntryIsWritten(s: bytes, key: bytes, pairs: seq<Pair>) returns (e: Entry, rest: bytes)
    requires NoZero(s) && Parse(s, WKey, key, pairs).Some? && Lex(s, WaitVal, [], false, false).Word?
    ensures s == EntryText(e, rest) && EntryOk(e) && NoZero(rest) && Head(rest) in {0, COMMA} && |rest| < |s|
  {
    var before, k, mid, t := KeyIsWritten(s, key, pairs);
    var after, v, behind, r := ValueIsWritten(t, WordOf(k.ls), pairs);
    e, rest := Entry(before, k, mid, after, v, behind), r;
    LettersLonger(k.ls, mid + (ARROW + t));
    LettersLonger(k.ls, [QUOTE] + (mid + (ARROW + t)));
    LettersLonger(v.ls, behind + r);
    LettersLonger(v.ls, [QUOTE] + (behind + r));
  }

  lemma {:induction false} LettersLonger(ls: seq<Letter>, rest: bytes)
    ensures |LettersText(ls, rest)| >= |rest|
    decreases |ls|
  {
    if ls != [] { LettersLonger(ls[1..], rest); }
  }

  /** Nothing but blanks is left when no word is found. */
  lemma {:induction false} NothingIsWritten(s: bytes)
    requires NoZero(s) && Lex(s, WaitVal, [], false, false) == NoWord
    ensures Blank(s)
    decreases |s|
  {
    if s != [] {
      assert s[0] in s;
      var word: bytes := [];
      if IsSpace(s[0]) { NothingIsWritten(s[1..]); }
      else if s[0] == QUOTE { NeverNothing(s[1..], InEscVal, word, true); }
      else if s[0] == BACKSLASH { NeverNothing(s[1..], WaitEscIn, word, false); }
      else { NeverNothing(s[1..], InVal, word + [s[0]], false); }
    }
  }

  lemma {:induction false} NeverNothing(s: bytes, st: LexState, word: bytes, escaped: bool)
    requires st != WaitVal
    ensures Lex(s, st, word, escaped, false) != NoWord
    decreases |s|
  {
    if s != [] {
      NeverNothing(s[1..], InVal, word + [s[0]], escaped);
      NeverNothing(s[1..], InEscVal, word + [s[0]], escaped);
      NeverNothing(s[1..], WaitEscIn, word, escaped);
      NeverNothing(s[1..], WaitEscEscIn, word, escaped);
    }
  }

  lemma {:induction false} ParsedIsWritten(s: bytes, key: bytes, pairs: seq<Pair>)
    returns (es: seq<Entry>, comma: bool, last: bytes)
    requires NoZero(s) && Parse(s, WKey, key, pairs).Some?
    ensures s == Written(es, comma, last) && AllOk(es) && Blank(last) && (es == [] ==> comma)
    decreases |s|
  {
    es, comma, last := [], true, s;
    if Lex(s, WaitVal, [], false, false) == NoWord {
      NothingIsWritten(s);
    } else {
      var e, rest := EntryIsWritten(s, key, pairs);
      if rest == [] {
        es, comma, last := [e], false, [];
      } else {
        assert rest[0] in rest && rest == [COMMA] + rest[1..];
        ReadEntry(e, rest, key, pairs);
        es, comma, last := ParsedIsWritten(rest[1..], PairOf(e).key, pairs + [PairOf(e)]);
        assert ([e] + es)[1..] == es;
        es := [e] + es;
      }
    }
  }

  /** The text is some way to write the pairs. */
  ghost predicate Writes(text: bytes, ps: seq<Pair>) {
    exists es, comma, last :: AllOk(es) && Blank(last) && text == Written(es, comma, last) && ps == PairsOf(es)
  }

  /** A text is parsed to `ps` exactly if it is a way to write them. */
  lemma {:induction false} ParsedIff(text: bytes, ps: seq<Pair>)
    requires NoZero(text)
    ensures Parsed(text) == Some(ps) <==> Writes(text, ps)
  {
    var none: seq<Pair> := [];
    forall es, comma, last | AllOk(es) && Blank(last) && text == Written(es, comma, last)
      ensures Parsed(text) == Some(PairsOf(es))
    {
      ReadWritten(es, comma, last, [], none);
      assert none + PairsOf(es) == PairsOf(es);
    }
    if Parsed(text) == Some(ps) {
      var es, comma, last := ParsedIsWritten(text, [], none);
    }
  }

  // ----- Bare words -----

  predicate Ordinary(b: byte) { !IsSpace(b) && b !in {0, BACKSLASH, EQUALS, COMMA} }

  function BareLetters(w: bytes): seq<Letter> { if w == [] then [] else [Bare(w[0])] + BareLetters(w[1..]) }

  predicate AllOrdinary(w: bytes) { w == [] || (Ordinary(w[0]) && AllOrdinary(w[1..])) }

  lemma {:induction false} FirstLetterText(l: Letter, ls: seq<Letter>, rest: bytes)
    ensures LettersText([l] + ls, rest) == LetterText(l) + LettersText(ls, rest)
    ensures WordOf([l] + ls) == [l.b] + WordOf(ls)
  {
    assert ([l] + ls)[1..] == ls;
  }

  lemma {:induction false} BareText(w: bytes, rest: bytes)
    ensures LettersText(BareLetters(w), rest) == w + rest && WordOf(BareLetters(w)) == w
    decreases |w|
  {
    if w == [] {
      assert w + rest == rest;
    } else {
      var t := w[1..];
      assert w == [w[0]] + t;
      BareText(t, rest);
      FirstLetterText(Bare(w[0]), BareLetters(t), rest);
      Glued([w[0]], t, rest);
    }
  }

  lemma {:induction false} BareOk(w: bytes, value: bool)
    requires AllOrdinary(w)
    ensures LettersOk(BareLetters(w), false, value)
    ensures w != [] && w[0] != QUOTE ==> SpellingOk(Plain(BareLetters(w)), value)
    decreases |w|
  {
    if w != [] {
      assert BareLetters(w)[1..] == BareLetters(w[1..]);
      BareOk(w[1..], value);
    }
  }

  /** A word of ordinary bytes is read as itself in front of a blank, its delimiter or the end. */
  lemma {:induction false} BareWordRead(w: bytes, rest: bytes, value: bool)
    requires w != [] && w[0] != QUOTE && AllOrdinary(w) && EndsWord(Head(rest), value)
    ensures Lex(w + rest, WaitVal, [], false, value)
         == Word(w, false, if IsSpace(Head(rest)) then rest[1..] else rest)
  {
    BareText(w, rest);
    BareOk(w, value);
    ReadWord(Plain(BareLetters(w)), rest, value);
  }

  // ----- What the printer writes -----

  function EscapedLetter(b: byte): Letter { if b == QUOTE || b == BACKSLASH then Slashed(b) else Bare(b) }

  function EscapedLetters(s: bytes, n: nat): seq<Letter>
    requires n <= |s|
  {
    if n == 0 then [] else EscapedLetters(s, n - 1) + [EscapedLetter(s[n - 1])]
  }

  lemma {:induction false} LastLetter(ls: seq<Letter>, l: Letter, rest: bytes, quoted: bool, value: bool)
    ensures LettersText(ls + [l], rest) == LettersText(ls, LetterText(l) + rest)
    ensures WordOf(ls + [l]) == WordOf(ls) + [l.b]
    ensures LettersOk(ls, quoted, value) && LetterOk(l, quoted, value) ==> LettersOk(ls + [l], quoted, value)
    decreases |ls|
  {
    if ls == [] {
      assert ls + [l] == [l] && [l][1..] == [];
    } else {
      assert (ls + [l])[1..] == ls[1..] + [l];
      LastLetter(ls[1..], l, rest, quoted, value);
    }
  }

  lemma {:induction false} EscapedText(s: bytes, n: nat, rest: bytes)
    requires n <= |s|
    ensures LettersText(EscapedLetters(s, n), rest) == Escaped(s, n) + rest
    decreases n
  {
    if n == 0 {
      assert Escaped(s, n) + rest == rest;
    } else {
      var l := EscapedLetter(s[n - 1]);
      EscapedText(s, n - 1, LetterText(l) + rest);
      LastLetter(EscapedLetters(s, n - 1), l, rest, true, true);
      Glued(Escaped(s, n - 1), LetterText(l), rest);
    }
  }

  lemma {:induction false} Glued(a: bytes, b: bytes, c: bytes)
    ensures a + (b + c) == a + b + c
  {
  }

  lemma {:induction false} EscapedOk(s: bytes, n: nat, value: bool)
    requires n <= |s| && NoZero(s)
    ensures WordOf(EscapedLetters(s, n)) == s[..n] && LettersOk(EscapedLetters(s, n), true, value)
    decreases n
  {
    if n > 0 {
      assert s[n - 1] in s;
      EscapedOk(s, n - 1, value);
      LastLetter(EscapedLetters(s, n - 1), EscapedLetter(s[n - 1]), [], true, value);
      assert s[..n] == s[..n - 1] + [s[n - 1]];
    }
  }

  function QuotedSpelling(s: bytes): Spelling { InQuotes(EscapedLetters(s, |s|)) }

  lemma {:induction false} QuotedText(s: bytes, rest: bytes, value: bool)
    requires NoZero(s)
    ensures SpellingText(QuotedSpelling(s), rest) == Quoted(s) + rest
    ensures SpellingOk(QuotedSpelling(s), value) && WordOf(QuotedSpelling(s).ls) == s
  {
    EscapedText(s, |s|, [QUOTE] + rest);
    EscapedOk(s, |s|, value);
    assert [QUOTE] + (Escaped(s, |s|) + ([QUOTE] + rest)) == Quoted(s) + rest;
    assert s[..|s|] == s;
  }

  /** A pair as it is printed, with a blank in front unless it is the first. */
  function Printed(p: Pair, first: bool): Entry {
    Entry(if first then [] else [SPACE], QuotedSpelling(p.key), [], [],
          if p.val.None? then Plain(BareLetters(NULLWORD)) else QuotedSpelling(p.val.value), [])
  }

  lemma {:induction false} NullIsOrdinary(w: bytes)
    requires w == NULLWORD
    ensures AllOrdinary(w) && NullInAnyCase(w)
  {
    assert AllOrdinary(w[3..]) && AllOrdinary(w[2..]) && AllOrdinary(w[1..]);
  }

  lemma {:induction false} PrintedValue(v: Option<bytes>, rest: bytes)
    requires CleanValue(v)
    ensures var sp := if v.None? then Plain(BareLetters(NULLWORD)) else QuotedSpelling(v.value);
            && SpellingText(sp, rest) == HstoreText.ValueText(v) + rest && SpellingOk(sp, true)
            && |WordOf(sp.ls)| <= MAX_LEN
            && v == if sp.Plain? && NullInAnyCase(WordOf(sp.ls)) then None else Some(WordOf(sp.ls))
  {
    if v.None? {
      BareText(NULLWORD, rest);
      NullIsOrdinary(NULLWORD);
      BareOk(NULLWORD, true);
    } else {
      QuotedText(v.value, rest, true);
    }
  }

  lemma {:induction false} PrintedIs(p: Pair, first: bool, rest: bytes)
    requires Clean(p)
    ensures EntryOk(Printed(p, first)) && PairOf(Printed(p, first)) == p
    ensures EntryText(Printed(p, first), rest) == (if first then [] else [SPACE]) + (PairText(p) + rest)
  {
    var e := Printed(p, first);
    var v := HstoreText.ValueText(p.val) + rest;
    PrintedValue(p.val, rest);
    NothingInFront(rest);
    NothingInFront(v);
    NothingInFront(ARROW + v);
    assert ValueText(e, rest) == v;
    QuotedText(p.key, ARROW + v, false);
    PairTextIs(p, rest);
  }

  lemma {:induction false} NothingInFront(s: bytes)
    ensures [] + s == s
  {
  }

  lemma {:induction false} PairTextIs(p: Pair, rest: bytes)
    ensures Quoted(p.key) + (ARROW + (HstoreText.ValueText(p.val) + rest)) == PairText(p) + rest
  {
    Glued(Quoted(p.key), ARROW, HstoreText.ValueText(p.val) + rest);
    Glued(Quoted(p.key) + ARROW, HstoreText.ValueText(p.val), rest);
  }

  /** The first `n` pairs as they are printed. */
  function Entries(ps: seq<Pair>, n: nat): (es: seq<Entry>)
    requires n <= |ps|
    ensures |es| == n
  {
    if n == 0 then [] else Entries(ps, n - 1) + [Printed(ps[n - 1], n == 1)]
  }

  lemma {:induction false} WrittenLast(es: seq<Entry>, e: Entry)
    requires es != [] && AllOk(es) && EntryOk(e)
    ensures Written(es + [e], false, []) == Written(es, false, []) + ([COMMA] + EntryText(e, []))
    ensures AllOk(es + [e]) && PairsOf(es + [e]) == PairsOf(es) + [PairOf(e)]
    decreases |es|
  {
    assert (es + [e])[1..] == es[1..] + [e];
    var none: bytes, u := [], [COMMA] + EntryText(e, []);
    if |es| == 1 {
      assert es[1..] + [e] == [e];
      OnlyEntry(e);
      NothingInFront(u);
      EntryAppend(es[0], none, u);
    } else {
      WrittenLast(es[1..], e);
      var t := Written(es[1..], false, none);
      Glued([COMMA], t, u);
      EntryAppend(es[0], [COMMA] + t, u);
    }
  }

  lemma {:induction false} LettersAppend(ls: seq<Letter>, a: bytes, b: bytes)
    ensures LettersText(ls, a + b) == LettersText(ls, a) + b
    decreases |ls|
  {
    if ls != [] {
      LettersAppend(ls[1..], a, b);
      assert LetterText(ls[0]) + (LettersText(ls[1..], a) + b) == LettersText(ls, a) + b;
    }
  }

  lemma {:induction false} SpellingAppend(sp: Spelling, a: bytes, b: bytes)
    ensures SpellingText(sp, a + b) == SpellingText(sp, a) + b
  {
    if sp.Plain? {
      LettersAppend(sp.ls, a, b);
    } else {
      LettersAppend(sp.ls, [QUOTE] + a, b);
      assert [QUOTE] + (a + b) == [QUOTE] + a + b;
      assert [QUOTE] + (LettersText(sp.ls, [QUOTE] + a) + b) == SpellingText(sp, a) + b;
    }
  }

  lemma {:induction false} EntryAppend(e: Entry, a: bytes, b: bytes)
    ensures EntryText(e, a + b) == EntryText(e, a) + b
  {
    SpellingAppend(e.val, e.behind + a, b);
    assert e.behind + (a + b) == e.behind + a + b;
    var v := ValueText(e, a);
    assert ValueText(e, a + b) == v + b;
    SpellingAppend(e.key, e.mid + (ARROW + v), b);
    assert e.mid + (ARROW + (v + b)) == e.mid + (ARROW + v) + b;
    assert e.before + (SpellingText(e.key, e.mid + (ARROW + v)) + b) == EntryText(e, a) + b;
  }

  /** Pair `n` as the last of the first `n` entries. */
  lemma {:induction false} LastEntry(ps: seq<Pair>, cs: seq<Piece>, n: nat)
    requires AllClean(ps) && 0 < n <= |ps| && cs == PairTexts(ps, |ps|)
    ensures var e := Printed(ps[n - 1], n == 1);
            && EntryOk(e) && PairOf(e) == ps[n - 1]
            && EntryText(e, []) == if n == 1 then cs[0].text else [SPACE] + cs[n - 1].text
  {
    var none: bytes, p := [], ps[n - 1];
    assert p in ps;
    PrintedIs(p, n == 1, none);
    assert PairText(p) + none == cs[n - 1].text;
    assert none + cs[n - 1].text == cs[n - 1].text;
  }

  lemma {:induction false} JoinLast(cs: seq<Piece>, n: nat)
    requires 1 < n <= |cs|
    ensures Join(cs, n) == Join(cs, n - 1) + ([COMMA] + ([SPACE] + cs[n - 1].text))
  {
    assert SEPARATOR + cs[n - 1].text == [COMMA] + ([SPACE] + cs[n - 1].text);
    Glued(Join(cs, n - 1), SEPARATOR, cs[n - 1].text);
  }

  lemma {:induction false} OnlyEntry(e: Entry)
    requires EntryOk(e)
    ensures AllOk([e]) && PairsOf([e]) == [PairOf(e)] && Written([e], false, []) == EntryText(e, [])
  {
    assert [e][1..] == [];
  }

  lemma {:induction false} EntriesAre(ps: seq<Pair>, cs: seq<Piece>, n: nat)
    requires AllClean(ps) && 0 < n <= |ps| && cs == PairTexts(ps, |ps|)
    ensures var es := Entries(ps, n);
            AllOk(es) && PairsOf(es) == Firsts(ps, n) && Written(es, false, []) == Join(cs, n)
  {
    var e := Printed(ps[n - 1], n == 1);
    LastEntry(ps, cs, n);
    if n == 1 {
      OnlyEntry(e);
      assert Entries(ps, 1) == [e];
    } else {
      EntriesAre(ps, cs, n - 1);
      WrittenLast(Entries(ps, n - 1), e);
      JoinLast(cs, n);
    }
  }

  function Firsts(ps: seq<Pair>, n: nat): seq<Pair>
    requires n <= |ps|
  {
    if n == 0 then [] else Firsts(ps, n - 1) + [ps[n - 1]]
  }

  lemma {:induction false} FirstsAre(ps: seq<Pair>, n: nat)
    requires n <= |ps|
    ensures Firsts(ps, n) == ps[..n]
  {
    if n > 0 {
      FirstsAre(ps, n - 1);
      assert ps[..n] == ps[..n - 1] + [ps[n - 1]];
    }
  }

  /** What is printed is parsed to the same pairs, in the same order. */
  lemma {:induction false} PrintThenParse(ps: seq<Pair>)
    requires AllClean(ps)
    ensures Parsed(Text(ps)) == Some(ps)
  {
    var none: seq<Pair> := [];
    if ps != [] {
      EntriesAre(ps, PairTexts(ps, |ps|), |ps|);
      FirstsAre(ps, |ps|);
      ReadWritten(Entries(ps, |ps|), false, [], [], none);
      assert none + ps == ps && ps[..|ps|] == ps;
    }
  }

  /** Printing the pairs of any accepted text gives a text with the same pairs. */
  lemma {:induction false} ReprintKeepsMeaning(text: bytes)
    requires Parsed(text).Some?
    ensures Parsed(Text(Parsed(text).value)) == Parsed(text)
  {
    ParseClean(text, WKey, [], []);
    PrintThenParse(Parsed(text).value);
  }

  /** What a printed hstore looks like: `"a"=>"b", "c"=>NULL`. */
  lemma {:induction false} PrintedForm(a: byte, b: byte, c: byte)
    requires a !in {QUOTE, BACKSLASH} && b !in {QUOTE, BACKSLASH} && c !in {QUOTE, BACKSLASH}
    ensures Text([Pair([a], Some([b])), Pair([c], None)])
         == [34, a, 34, 61, 62, 34, b, 34, 44, 32, 34, c, 34, 61, 62, 78, 85, 76, 76]
  {
    OneQuoted(a);
    OneQuoted(b);
    OneQuoted(c);
    TwoTexts(Pair([a], Some([b])), Pair([c], None));
  }

  lemma {:induction false} OneQuoted(b: byte)
    ensures Quoted([b]) == if b == QUOTE || b == BACKSLASH then [34, 92, b, 34] else [34, b, 34]
  {
    var s := [b];
    assert Escaped(s, 1) == Escaped(s, 0) + Escape(b) == Escape(b);
  }

  lemma {:induction false} TwoTexts(p: Pair, q: Pair)
    ensures Text([p, q]) == PairText(p) + SEPARATOR + PairText(q)
  {
    var ps := [p, q];
    var cs := PairTexts(ps, 2);
    assert cs[0] == Piece(PairText(p)) && cs[1] == Piece(PairText(q));
    assert Join(cs, 2) == Join(cs, 1) + SEPARATOR + cs[1].text;
  }
}
