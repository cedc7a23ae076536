/**
 * The text form of an hstore: the printer, and the parser as a machine over the bytes of the
 * text.
 */
module HstoreText {
  import opened Options
  import opened Bytea
  import opened HstorePairs

  const QUOTE: byte := 34
  const COMMA: byte := 44
  const EQUALS: byte := 61
  const GREATER: byte := 62
  const BACKSLASH: byte := 92
  const SPACE: byte := 32

  /** NULL, and its two-byte separators. */
  const NULLWORD: bytes := [78, 85, 76, 76]
  const ARROW: bytes := [EQUALS, GREATER]
  const SEPARATOR: bytes := [COMMA, SPACE]

  /** The longest key or value. */
  const MAX_LEN := 0x3fff_ffff

  // ----- Printing -----

  function Escape(b: byte): bytes { if b == QUOTE || b == BACKSLASH then [BACKSLASH, b] else [b] }

  /** The first `n` bytes with escapes. */
  function Escaped(s: bytes, n: nat): bytes
    requires n <= |s|
  {
    if n == 0 then [] else Escaped(s, n - 1) + Escape(s[n - 1])
  }

  function Quoted(s: bytes): bytes { [QUOTE] + Escaped(s, |s|) + [QUOTE] }

  function ValueText(v: Option<bytes>): bytes { if v.None? then NULLWORD else Quoted(v.value) }

  function PairText(p: Pair): bytes { Quoted(p.key) + ARROW + ValueText(p.val) }

  datatype Piece = Piece(text: bytes)

  /** The first `n` pieces with separators between them. */
  function Join(cs: seq<Piece>, n: nat): bytes
    requires n <= |cs|
  {
    if n == 0 then [] else if n == 1 then cs[0].text else Join(cs, n - 1) + SEPARATOR + cs[n - 1].text
  }

  function PairTexts(ps: seq<Pair>, n: nat): (cs: seq<Piece>)
    requires n <= |ps|
    ensures |cs| == n && forall i | 0 <= i < n :: cs[i] == Piece(PairText(ps[i]))
  {
    if n == 0 then [] else PairTexts(ps, n - 1) + [Piece(PairText(ps[n - 1]))]
  }

  /** The text of a list of pairs. */
  function Text(ps: seq<Pair>): bytes { Join(PairTexts(ps, |ps|), |ps|) }

  // ----- Reading one word -----

  /** The first byte of a C string; the terminator if there is none. */
  function Head(s: bytes): byte { if s == [] then 0 else s[0] }

  predicate IsSpace(b: byte) { b == 32 || 9 <= b <= 13 }

  datatype LexState = WaitVal | InVal | InEscVal | WaitEscIn | WaitEscEscIn

  /** Outcome of `get_val`: nothing left, a word and the text behind it, or an error. */
  datatype Lexed = NoWord | Word(word: bytes, escaped: bool, rest: bytes) | LexError

  /** `get_val` from the state `st` on the text `s`, with the word read so far. */
  function Lex(s: bytes, st: LexState, word: bytes, escaped: bool, ignoreEq: bool): (r: Lexed)
    ensures r.Word? ==> |r.rest| <= |s| && (st != InVal ==> |r.rest| < |s|)
    decreases |s|
  {
    var c := Head(s);
    match st
    case WaitVal =>
      if c == QUOTE then Lex(s[1..], InEscVal, word, true, ignoreEq)
      else if c == 0 then NoWord
      else if c == EQUALS && !ignoreEq then LexError
      else if c == BACKSLASH then Lex(s[1..], WaitEscIn, word, escaped, ignoreEq)
      else if !IsSpace(c) then Lex(s[1..], InVal, word + [c], escaped, ignoreEq)
      else Lex(s[1..], WaitVal, word, escaped, ignoreEq)
    case InVal =>
      if c == BACKSLASH then Lex(s[1..], WaitEscIn, word, escaped, ignoreEq)
      else if c == EQUALS && !ignoreEq then Word(word, escaped, s)
      else if c == COMMA && ignoreEq then Word(word, escaped, s)
      else if IsSpace(c) then Word(word, escaped, s[1..])
      else if c == 0 then Word(word, escaped, s)
      else Lex(s[1..], InVal, word + [c], escaped, ignoreEq)
    case InEscVal =>
      if c == BACKSLASH then Lex(s[1..], WaitEscEscIn, word, escaped, ignoreEq)
      else if c == QUOTE then Word(word, escaped, s[1..])
      else if c == 0 then LexError
      else Lex(s[1..], InEscVal, word + [c], escaped, ignoreEq)
    case WaitEscIn =>
      if c == 0 then LexError else Lex(s[1..], InVal, word + [c], escaped, ignoreEq)
    case WaitEscEscIn =>
      if c == 0 then LexError else Lex(s[1..], InEscVal, word + [c], escaped, ignoreEq)
  }

  // ----- Reading pairs -----

  datatype ParseState = WKey | WEq | WGt | WVal | WDel

  function Lower(b: byte): byte { if 65 <= b <= 90 then b + 32 else b }

  /** pg_strcasecmp with "null". */
  predicate SpellsNull(w: bytes) {
    |w| == 4 && Lower(w[0]) == 110 && Lower(w[1]) == 117 && Lower(w[2]) == 108 && Lower(w[3]) == 108
  }

  /** A word as a value: null only if it is spelled so without quotes. */
  function ValueOfWord(w: bytes, escaped: bool): Option<bytes> {
    if !escaped && SpellsNull(w) then None else Some(w)
  }

  /** `parse_hstore` from the state `st` on the text `s`; `key` is the key of the pair being read. */
  function Parse(s: bytes, st: ParseState, key: bytes, pairs: seq<Pair>): (r: Option<seq<Pair>>)
    decreases |s|
  {
    var c := Head(s);
    match st
    case WKey =>
      (match Lex(s, WaitVal, [], false, false)
       case NoWord => Some(pairs)
       case LexError => None
       case Word(w, _, rest) => if |w| > MAX_LEN then None else Parse(rest, WEq, w, pairs))
    case WEq =>
      if c == EQUALS then Parse(s[1..], WGt, key, pairs)
      else if c == 0 || !IsSpace(c) then None
      else Parse(s[1..], WEq, key, pairs)
    case WGt =>
      if c == GREATER then Parse(s[1..], WVal, key, pairs) else None
    case WVal =>
      (match Lex(s, WaitVal, [], false, true)
       case NoWord => None
       case LexError => None
       case Word(w, e, rest) =>
         if |w| > MAX_LEN then None else Parse(rest, WDel, key, pairs + [Pair(key, ValueOfWord(w, e))]))
    case WDel =>
      if c == COMMA then Parse(s[1..], WKey, key, pairs)
      else if c == 0 then Some(pairs)
      else if !IsSpace(c) then None
      else Parse(s[1..], WDel, key, pairs)
  }

  function Parsed(text: bytes): Option<seq<Pair>> { Parse(text, WKey, [], []) }

  // ----- What can be printed -----

  predicate NoZero(s: bytes) { 0 !in s }

  predicate CleanValue(v: Option<bytes>) { v.Some? ==> NoZero(v.value) && |v.value| <= MAX_LEN }

  /** No zero bytes, and no more bytes than a key or value may have. */
  predicate Clean(p: Pair) { NoZero(p.key) && |p.key| <= MAX_LEN && CleanValue(p.val) }

  ghost predicate AllClean(ps: seq<Pair>) { forall p | p in ps :: Clean(p) }

  lemma {:induction false} LexClean(s: bytes, st: LexState, word: bytes, escaped: bool, ignoreEq: bool)
    requires NoZero(word)
    ensures var r := Lex(s, st, word, escaped, ignoreEq); r.Word? ==> NoZero(r.word)
    decreases |s|
  {
    var c := Head(s);
    if c != 0 {
      match st
      case WaitVal =>
        if c == QUOTE { LexClean(s[1..], InEscVal, word, true, ignoreEq); }
        else if c == BACKSLASH { LexClean(s[1..], WaitEscIn, word, escaped, ignoreEq); }
        else if !IsSpace(c) { LexClean(s[1..], InVal, word + [c], escaped, ignoreEq); }
        else { LexClean(s[1..], WaitVal, word, escaped, ignoreEq); }
      case InVal =>
        if c == BACKSLASH { LexClean(s[1..], WaitEscIn, word, escaped, ignoreEq); }
        else { LexClean(s[1..], InVal, word + [c], escaped, ignoreEq); }
      case InEscVal =>
        if c == BACKSLASH { LexClean(s[1..], WaitEscEscIn, word, escaped, ignoreEq); }
        else { LexClean(s[1..], InEscVal, word + [c], escaped, ignoreEq); }
      case WaitEscIn => LexClean(s[1..], InVal, word + [c], escaped, ignoreEq);
      case WaitEscEscIn => LexClean(s[1..], InEscVal, word + [c], escaped, ignoreEq);
    }
  }

  /** Only clean pairs are read, from any text. */
  lemma {:induction false} ParseClean(s: bytes, st: ParseState, key: bytes, pairs: seq<Pair>)
    requires AllClean(pairs) && NoZero(key) && |key| <= MAX_LEN
    ensures var r := Parse(s, st, key, pairs); r.Some? ==> AllClean(r.value)
    decreases |s|
  {
    match st
    case WKey =>
      LexClean(s, WaitVal, [], false, false);
      var r := Lex(s, WaitVal, [], false, false);
      if r.Word? && |r.word| <= MAX_LEN { ParseClean(r.rest, WEq, r.word, pairs); }
    case WVal =>
      LexClean(s, WaitVal, [], false, true);
      var r := Lex(s, WaitVal, [], false, true);
      if r.Word? && |r.word| <= MAX_LEN {
        ParseClean(r.rest, WDel, key, pairs + [Pair(key, ValueOfWord(r.word, r.escaped))]);
      }
    case WEq =>
      if s != [] {
        ParseClean(s[1..], WGt, key, pairs);
        ParseClean(s[1..], WEq, key, pairs);
      }
    case WGt => if s != [] { ParseClean(s[1..], WVal, key, pairs); }
    case WDel =>
      if s != [] {
        ParseClean(s[1..], WKey, key, pairs);
        ParseClean(s[1..], WDel, key, pairs);
      }
  }
}
