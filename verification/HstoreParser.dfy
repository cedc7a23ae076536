/**
 * The parser of the text form of an hstore, with buffers that double in size: a word, and
 * the list of pairs, can become too large for them.
 */
module HstoreParser {
  import opened Machine
  import opened Options
  import opened Bytea
  import opened HstorePairs
  import opened HstoreText

  /** The longest list of pairs: doubled once more, its array cannot be allocated. */
  const PAIRS_MAX := 0x100_0000

  lemma FirstPairs()
    ensures IsPower(16, PAIRS_MAX)
  {
    assert IsPower(0x2_0000, PAIRS_MAX);
    assert IsPower(0x400, PAIRS_MAX);
  }

  // ----- What the buffers ask of a text -----

  predicate FailsOn(r: Lexed) { r == LexError || (r.Word? && |r.word| >= BUF_MAX) }

  predicate Short(p: Pair) { |p.key| < BUF_MAX && (p.val.Some? ==> |p.val.value| < BUF_MAX) }

  ghost predicate AllShort(ps: seq<Pair>) { forall i: nat | i < |ps| :: Short(ps[i]) }

  /** Pairs that are neither too many nor too long. */
  ghost predicate Held(r: Option<seq<Pair>>) { r.Some? && |r.value| <= PAIRS_MAX && AllShort(r.value) }

  /** The text of such pairs. */
  ghost predicate Accepted(text: bytes) { Held(Parsed(text)) }

  /** A word only grows while it is read. */
  lemma {:induction false} LexGrows(s: bytes, st: LexState, word: bytes, escaped: bool, ignoreEq: bool)
    ensures var r := Lex(s, st, word, escaped, ignoreEq); r.Word? ==> |r.word| >= |word|
    ensures st != WaitVal ==> !Lex(s, st, word, escaped, ignoreEq).NoWord?
    decreases |s|
  {
    var c := Head(s);
    if c != 0 {
      match st
      case WaitVal =>
        if c == QUOTE { LexGrows(s[1..], InEscVal, word, true, ignoreEq); }
        else if c == BACKSLASH { LexGrows(s[1..], WaitEscIn, word, escaped, ignoreEq); }
        else if !IsSpace(c) { LexGrows(s[1..], InVal, word + [c], escaped, ignoreEq); }
        else { LexGrows(s[1..], WaitVal, word, escaped, ignoreEq); }
      case InVal =>
        if c == BACKSLASH { LexGrows(s[1..], WaitEscIn, word, escaped, ignoreEq); }
        else { LexGrows(s[1..], InVal, word + [c], escaped, ignoreEq); }
      case InEscVal =>
        if c == BACKSLASH { LexGrows(s[1..], WaitEscEscIn, word, escaped, ignoreEq); }
        else { LexGrows(s[1..], InEscVal, word + [c], escaped, ignoreEq); }
      case WaitEscIn => LexGrows(s[1..], InVal, word + [c], escaped, ignoreEq);
      case WaitEscEscIn => LexGrows(s[1..], InEscVal, word + [c], escaped, ignoreEq);
    }
  }

  /** Pairs are only added, and a key that has been read becomes part of one. */
  ghost predicate Goes(st: ParseState, key: bytes, pairs: seq<Pair>, r: Option<seq<Pair>>) {
    r.Some? ==>
      && pairs <= r.value
      && (st == WEq || st == WGt || st == WVal ==> |r.value| > |pairs| && r.value[|pairs|].key == key)
  }

  lemma {:induction false} ParseGrows(s: bytes, st: ParseState, key: bytes, pairs: seq<Pair>)
    ensures Goes(st, key, pairs, Parse(s, st, key, pairs))
    decreases |s|
  {
    match st
    case WKey =>
      var r := Lex(s, WaitVal, [], false, false);
      if r.Word? && |r.word| <= MAX_LEN { ParseGrows(r.rest, WEq, r.word, pairs); }
    case WVal =>
      var r := Lex(s, WaitVal, [], false, true);
      if r.Word? && |r.word| <= MAX_LEN {
        ParseGrows(r.rest, WDel, key, pairs + [Pair(key, ValueOfWord(r.word, r.escaped))]);
      }
    case WEq =>
      if s != [] {
        ParseGrows(s[1..], WGt, key, pairs);
        ParseGrows(s[1..], WEq, key, pairs);
      }
    case WGt => if s != [] { ParseGrows(s[1..], WVal, key, pairs); }
    case WDel =>
      if s != [] {
        ParseGrows(s[1..], WKey, key, pairs);
        ParseGrows(s[1..], WDel, key, pairs);
      }
  }

  /** A text whose next key fails, or has no room for its pair, is not one of pairs that can be held. */
  lemma {:induction false} KeyFails(s: bytes, key: bytes, pairs: seq<Pair>)
    requires var r := Lex(s, WaitVal, [], false, false); FailsOn(r) || (r.Word? && |pairs| >= PAIRS_MAX)
    ensures !Held(Parse(s, WKey, key, pairs))
  {
    var r, g := Lex(s, WaitVal, [], false, false), Parse(s, WKey, key, pairs);
    if r.Word? {
      ParseGrows(r.rest, WEq, r.word, pairs);
      if g.Some? && |pairs| < PAIRS_MAX { assert !Short(g.value[|pairs|]); }
    }
  }

  /** Nor is a text whose next value fails or is missing. */
  lemma {:induction false} ValueFails(s: bytes, key: bytes, pairs: seq<Pair>)
    requires var r := Lex(s, WaitVal, [], false, true); FailsOn(r) || r.NoWord?
    ensures !Held(Parse(s, WVal, key, pairs))
  {
    var r, g := Lex(s, WaitVal, [], false, true), Parse(s, WVal, key, pairs);
    if r.Word? {
      ParseGrows(r.rest, WDel, key, pairs + [Pair(key, ValueOfWord(r.word, r.escaped))]);
      if g.Some? { assert !Short(g.value[|pairs|]); }
    }
  }

  // ----- The parser -----

  /** Where one byte leaves `get_val`: it reads on, or ends with nothing, a word or an error. */
  datatype Reading = More | Nothing | Found | Failed

  /**
   * The parser's state: the text, the place in it, the word being read and the pairs found,
   * and the capacity of the buffers for these two.
   */
  class HSParser {
    const begin: bytes
    var ptr: nat
    var word: bytes
    var wordlen: nat
    var pairs: seq<Pair>
    var plen: nat

    constructor (text: bytes)
      ensures begin == text && ptr == 0 && pairs == []
    {
      begin := text;
      ptr, word, wordlen, pairs, plen := 0, [], 0, [], 0;
    }

    /** The text from the pointer on, from behind it, and the byte at it. */
    function Rest(): bytes
      requires ptr <= |begin|
      reads this
    {
      begin[ptr..]
    }

    function Behind(): bytes
      reads this
    {
      if ptr < |begin| then begin[ptr + 1..] else []
    }

    function Peek(): (c: byte)
      reads this
      ensures ptr <= |begin| ==> c == Head(Rest())
      ensures ptr <= |begin| && c != 0 ==> Rest()[1..] == Behind()
    {
      if ptr < |begin| then begin[ptr] else 0
    }

    /** The buffer has room for the word and a terminator; its capacity is a power of two. */
    ghost predicate WordFits()
      reads this
    {
      |word| < wordlen && IsPower(wordlen, BUF_MAX)
    }

    /** `RESIZEPRSBUF` and a store: one more byte, unless the buffer would become too large. */
    method Append(c: byte) returns (ok: bool)
      requires WordFits()
      modifies this`word, this`wordlen
      ensures ok <==> |old(word)| + 1 < BUF_MAX
      ensures ok ==> WordFits() && word == old(word) + [c]
    {
      if |word| + 1 >= wordlen {
        PowerStep(wordlen, BUF_MAX);
        wordlen := wordlen * 2;
        if wordlen > MAX_ALLOC { return false; }
      }
      word := word + [c];
      return true;
    }

    /** A byte on the way to state `st`; without room for it, reading on would fail as well. */
    method Keep(c: byte, st: LexState, ghost escaped: bool, ghost ignoreEq: bool) returns (ok: bool)
      requires WordFits() && ptr < |begin| && st != WaitVal
      modifies this`word, this`wordlen
      ensures ok ==> WordFits() && word == old(word) + [c]
      ensures !ok ==> FailsOn(Lex(Behind(), st, old(word) + [c], escaped, ignoreEq))
    {
      LexGrows(Behind(), st, word + [c], escaped, ignoreEq);
      ok := Append(c);
    }

    /** One byte outside quotes; the end of a word is the outcome of `Lex`. */
    method ReadPlain(st: LexState, escaped: bool, ignoreEq: bool) returns (next: LexState, esc: bool, end: Reading)
      requires ptr <= |begin| && (st == WaitVal || (st == InVal && ptr > 0)) && WordFits()
      requires st == WaitVal ==> word == []
      modifies this`ptr, this`word, this`wordlen
      ensures Read(Lex(old(Rest()), st, old(word), escaped, ignoreEq), next, esc, ignoreEq, end)
      ensures end == More ==> ptr == old(ptr) + 1
    {
      var c := Peek();
      next, esc := st, escaped;
      if c == BACKSLASH {
        next := WaitEscIn;
      } else if st == WaitVal {
        if c == QUOTE {
          esc, next := true, InEscVal;
        } else if c == 0 {
          return next, esc, Nothing;
        } else if c == EQUALS && !ignoreEq {
          return next, esc, Failed;
        } else if !IsSpace(c) {
          var ok := Append(c);
          next := InVal;
        }
      } else {
        if (c == EQUALS && !ignoreEq) || (c == COMMA && ignoreEq) || c == 0 {
          ptr := ptr - 1;
          return next, esc, Found;
        } else if IsSpace(c) {
          return next, esc, Found;
        }
        var ok := Keep(c, InVal, escaped, ignoreEq);
        if !ok { return next, esc, Failed; }
      }
      ptr := ptr + 1;
      return next, esc, More;
    }

    /** One byte inside quotes or behind a backslash. */
    method ReadQuoted(st: LexState, escaped: bool, ghost ignoreEq: bool) returns (next: LexState, end: Reading)
      requires ptr <= |begin| && st != WaitVal && st != InVal && WordFits()
      modifies this`ptr, this`word, this`wordlen
      ensures Read(Lex(old(Rest()), st, old(word), escaped, ignoreEq), next, escaped, ignoreEq, end)
      ensures end == More ==> ptr == old(ptr) + 1
    {
      var c := Peek();
      next := if st == WaitEscIn then InVal else InEscVal;
      if c == 0 { return next, Failed; }
      if st == InEscVal && c == BACKSLASH {
        next := WaitEscEscIn;
      } else if st == InEscVal && c == QUOTE {
        return next, Found;
      } else {
        var ok := Keep(c, next, escaped, ignoreEq);
        if !ok { return next, Failed; }
      }
      ptr := ptr + 1;
      return next, More;
    }

    /** What one byte says about the outcome `goal` of reading on. */
    ghost predicate Read(goal: Lexed, next: LexState, esc: bool, ignoreEq: bool, end: Reading)
      reads this
    {
      match end
      case More =>
        && ptr <= |begin| && WordFits() && (next == InVal ==> ptr > 0) && (next == WaitVal ==> word == [])
        && Lex(Rest(), next, word, esc, ignoreEq) == goal
      case Nothing => goal == NoWord
      case Found => WordFits() && ptr < |begin| && goal == Word(word, esc, Behind())
      case Failed => FailsOn(goal)
    }

    /** One byte of `get_val`. */
    method ReadByte(st: LexState, escaped: bool, ignoreEq: bool, ghost goal: Lexed)
      returns (next: LexState, esc: bool, end: Reading)
      requires Read(goal, st, escaped, ignoreEq, More)
      modifies this`ptr, this`word, this`wordlen
      ensures Read(goal, next, esc, ignoreEq, end) && (end == Found ==> |word| < BUF_MAX)
      ensures end == More ==> ptr == old(ptr) + 1
    {
      esc := escaped;
      if st == WaitVal || st == InVal {
        next, esc, end := ReadPlain(st, escaped, ignoreEq);
      } else {
        next, end := ReadQuoted(st, escaped, ignoreEq);
      }
      if end == Found { WordIsShort(); }
    }

    /** `get_val`: the next word; `failed` stands for the error exits. */
    method GetVal(ignoreEq: bool) returns (found: bool, escaped: bool, failed: bool)
      requires ptr <= |begin|
      modifies this`ptr, this`word, this`wordlen
      ensures failed <==> FailsOn(Lex(old(Rest()), WaitVal, [], false, ignoreEq))
      ensures !failed && !found <==> Lex(old(Rest()), WaitVal, [], false, ignoreEq) == NoWord
      ensures found ==>
                && !failed && ptr < |begin|
                && Lex(old(Rest()), WaitVal, [], false, ignoreEq) == Word(word, escaped, Behind())
    {
      ghost var goal := Lex(Rest(), WaitVal, [], false, ignoreEq);
      var st, end := WaitVal, More;
      FirstSizes();
      word, wordlen, escaped := [], 32, false;
      while end == More
        invariant Read(goal, st, escaped, ignoreEq, end) && (end == Found ==> |word| < BUF_MAX)
        decreases end == More, |begin| - ptr
      {
        st, escaped, end := ReadByte(st, escaped, ignoreEq, goal);
      }
      return end == Found, escaped, end == Failed;
    }

    lemma WordIsShort()
      requires WordFits()
      ensures |word| < BUF_MAX
    {
      PowerStep(wordlen, BUF_MAX);
    }

    /** One byte between words: it leads on, ends the text, or is an error. */
    method ReadMark(st: ParseState, ghost key: bytes) returns (next: ParseState, end: Reading)
      requires ptr <= |begin| && st != WKey && st != WVal
      ensures end == More ==> ptr < |begin| && Parse(Rest(), st, key, pairs) == Parse(Behind(), next, key, pairs)
      ensures end == More ==> (next == WKey || next == WDel <==> st == WDel)
      ensures end == Nothing ==> Parse(Rest(), st, key, pairs) == Some(pairs)
      ensures end == Failed ==> Parse(Rest(), st, key, pairs) == None
      ensures end != Found
    {
      var c := Peek();
      next := st;
      match st {
        case WEq =>
          if c == EQUALS { return WGt, More; }
          if c == 0 || !IsSpace(c) { return st, Failed; }
        case WGt =>
          if c != GREATER { return st, Failed; }
          next := WVal;
        case WDel =>
          if c == COMMA { return WKey, More; }
          if c == 0 { return st, Nothing; }
          if !IsSpace(c) { return st, Failed; }
      }
      end := More;
    }

    /** The array has room for the pairs; its capacity is a power of two. */
    ghost predicate PairsFit()
      reads this
    {
      |pairs| <= plen && IsPower(plen, PAIRS_MAX)
    }

    /** The next key, if there is one, with room for its pair. */
    method TakeKey(ghost before: bytes) returns (key: bytes, end: Reading)
      requires ptr <= |begin| && PairsFit()
      modifies this`ptr, this`word, this`wordlen, this`plen
      ensures end == More ==>
                && ptr < |begin| && PairsFit() && |pairs| < plen && |key| < BUF_MAX && ptr >= old(ptr)
                && Parse(Behind(), WEq, key, pairs) == Parse(old(Rest()), WKey, before, pairs)
      ensures end == Nothing ==> Parse(old(Rest()), WKey, before, pairs) == Some(pairs)
      ensures end == Failed ==> !Held(Parse(old(Rest()), WKey, before, pairs))
      ensures end != Found
    {
      ghost var s := Rest();
      var found, _, failed := GetVal(false);
      if failed {
        KeyFails(s, before, pairs);
        return [], Failed;
      }
      if !found { return [], Nothing; }
      if |pairs| >= plen {
        PowerStep(plen, PAIRS_MAX);
        plen := plen * 2;
        if 40 * plen > MAX_ALLOC {
          KeyFails(s, before, pairs);
          return [], Failed;
        }
      }
      if |word| > MAX_LEN { return [], Failed; }
      return word, More;
    }

    /** The next value; it completes a pair. */
    method TakeValue(key: bytes) returns (ok: bool)
      requires ptr <= |begin| && PairsFit() && |pairs| < plen && |key| < BUF_MAX && AllShort(pairs)
      modifies this`ptr, this`word, this`wordlen, this`pairs
      ensures ok ==>
                && ptr < |begin| && PairsFit() && AllShort(pairs) && ptr >= old(ptr)
                && Parse(Behind(), WDel, key, pairs) == Parse(old(Rest()), WVal, key, old(pairs))
      ensures !ok ==> !Held(Parse(old(Rest()), WVal, key, old(pairs)))
    {
      ghost var s := Rest();
      var found, escaped, failed := GetVal(true);
      if failed || !found {
        ValueFails(s, key, pairs);
        return false;
      }
      if |word| > MAX_LEN { return false; }
      pairs := pairs + [Pair(key, ValueOfWord(word, escaped))];
      return true;
    }

    /** The loop of `parse_hstore` has come to `st`, with `goal` as what it is heading for. */
    ghost predicate Underway(goal: Option<seq<Pair>>, st: ParseState, key: bytes)
      reads this
    {
      && ptr <= |begin| && PairsFit() && AllShort(pairs) && Parse(Rest(), st, key, pairs) == goal
      && (st != WKey && st != WDel ==> |pairs| < plen && |key| < BUF_MAX)
    }

    /** One round of the loop. */
    method Round(st: ParseState, key: bytes, ghost goal: Option<seq<Pair>>)
      returns (st': ParseState, key': bytes, end: Reading)
      requires Underway(goal, st, key)
      modifies this
      ensures end == More ==> Underway(goal, st', key') && ptr > old(ptr)
      ensures end == Nothing ==> Held(goal) && goal == Some(pairs)
      ensures end == Failed ==> !Held(goal)
      ensures end != Found
    {
      PowerStep(plen, PAIRS_MAX);
      st', key', end := st, key, More;
      if st == WKey {
        key', end := TakeKey(key);
        st' := WEq;
      } else if st == WVal {
        var got := TakeValue(key);
        if !got { end := Failed; }
        st' := WDel;
      } else {
        st', end := ReadMark(st, key);
      }
      if end == More { ptr := ptr + 1; }
    }

    /** `parse_hstore`; the result says whether there was no error. */
    method ParseHstore() returns (ok: bool)
      requires ptr == 0 && pairs == []
      modifies this
      ensures ok <==> Accepted(begin)
      ensures ok ==> pairs == Parsed(begin).value
    {
      ghost var goal := Parsed(begin);
      var st, key, end := WKey, [], More;
      FirstPairs();
      plen := 16;
      while end == More
        invariant end == More ==> Underway(goal, st, key)
        invariant end == Nothing ==> Held(goal) && goal == Some(pairs)
        invariant end == Failed ==> !Held(goal)
        invariant end != Found
        decreases end == More, |begin| - ptr
      {
        st, key, end := Round(st, key, goal);
      }
      return end == Nothing;
    }
  }
}
