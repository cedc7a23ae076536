/** Input and output functions of the hstore type. */
module HstoreIO {
  import opened Machine
  import opened Options
  import opened Bytea
  import opened HstorePairs
  import opened HstorePacked
  import opened HstoreBuild
  import opened HstoreOps
  import opened HstoreText
  import opened HstoreParser
  import opened HstoreSpelling

  // ----- Input -----

  /** `hstore_in`: parse, thin out and pack. */
  method In(text: bytes) returns (r: Option<HStore>)
    ensures !Accepted(text) ==> r.None?
    ensures Accepted(text) ==>
              exists ps :: Distilled(ps, Parsed(text).value)
                        && r == if PackedSize(ps) <= MAX_ALLOC then Some(Pack(ps)) else None
  {
    var state := new HSParser(text);
    var ok := state.ParseHstore();
    if !ok { return None; }
    var found := state.pairs;
    var a := new Pair[|found|](i requires 0 <= i < |found| => found[i]);
    assert a[..|found|] == found;
    var n, buflen := UniquePairs(a, |found|);
    r := FromPairs(a[..n], buflen);
  }

  // ----- Output -----

  /** The room that is set aside for a pair, a separator included. */
  function PairNeeds(p: Pair): nat {
    6 + 2 * |p.key| + 2 + if p.val.None? then 2 else 2 * |p.val.value|
  }

  function Needs(ps: seq<Pair>, n: nat): nat
    requires n <= |ps|
  {
    if n == 0 then 0 else Needs(ps, n - 1) + PairNeeds(ps[n - 1])
  }

  lemma {:induction false} EscapedLength(s: bytes, n: nat)
    requires n <= |s|
    ensures n <= |Escaped(s, n)| <= 2 * n
  {
    if n > 0 { EscapedLength(s, n - 1); }
  }

  /** The estimate is at most twice the size of the value, so it stays below 2^31. */
  lemma {:induction false} NeedsBound(ps: seq<Pair>, n: nat)
    requires n <= |ps|
    ensures Needs(ps, n) <= 10 * n + 2 * RoomOf(ps, n)
  {
    if n > 0 { NeedsBound(ps, n - 1); }
  }

  lemma {:induction false} NeedsFitInt(h: HStore)
    requires Canonical(h)
    ensures Needs(Pairs(h), Count(h)) < 0x8000_0000
  {
    NeedsBound(Pairs(h), Count(h));
    SizeOfPairs(h);
  }

  /** The output buffer and how far it is written. */
  class Writer {
    const out: array<byte>
    var ptr: nat

    constructor (buflen: nat)
      ensures ptr == 0 && fresh(out) && out.Length == buflen
    {
      out := new byte[buflen];
      ptr := 0;
    }

    ghost function Written(): bytes
      requires ptr <= out.Length
      reads this, out
    {
      out[..ptr]
    }

    method Put(b: byte)
      requires ptr < out.Length
      modifies this, out
      ensures ptr == old(ptr) + 1 <= out.Length && Written() == old(Written()) + [b]
    {
      out[ptr] := b;
      ptr := ptr + 1;
    }

    method PutAll(s: bytes)
      requires ptr + |s| <= out.Length
      modifies this, out
      ensures ptr == old(ptr) + |s| && ptr <= out.Length && Written() == old(Written()) + s
    {
      ghost var was := Written();
      for k := 0 to |s|
        invariant ptr == old(ptr) + k && ptr <= out.Length && Written() == was + s[..k]
      {
        Put(s[k]);
        assert s[..k + 1] == s[..k] + [s[k]];
      }
      assert s[..|s|] == s;
    }

    /** `cpw`: copy with escapes. */
    method Cpw(src: bytes)
      requires ptr + 2 * |src| <= out.Length
      modifies this, out
      ensures ptr <= out.Length && Written() == old(Written()) + Escaped(src, |src|)
      ensures ptr == old(ptr) + |Escaped(src, |src|)|
    {
      ghost var was := Written();
      for k := 0 to |src|
        invariant ptr <= old(ptr) + 2 * k && ptr <= out.Length
        invariant ptr == old(ptr) + |Escaped(src, k)| && Written() == was + Escaped(src, k)
      {
        ghost var before := Written();
        if src[k] == QUOTE || src[k] == BACKSLASH { Put(BACKSLASH); }
        Put(src[k]);
        assert Written() == before + Escape(src[k]);
      }
    }

    method PutQuoted(s: bytes)
      requires ptr + 2 + 2 * |s| <= out.Length
      modifies this, out
      ensures ptr <= out.Length && Written() == old(Written()) + Quoted(s)
      ensures ptr == old(ptr) + |Quoted(s)| <= old(ptr) + 2 + 2 * |s|
    {
      EscapedLength(s, |s|);
      Put(QUOTE);
      Cpw(s);
      Put(QUOTE);
    }

    method PutPair(p: Pair)
      requires ptr + PairNeeds(p) - 2 <= out.Length
      modifies this, out
      ensures ptr <= out.Length && Written() == old(Written()) + PairText(p)
      ensures ptr <= old(ptr) + PairNeeds(p) - 2
    {
      PutQuoted(p.key);
      PutAll(ARROW);
      if p.val.None? {
        PutAll(NULLWORD);
      } else {
        PutQuoted(p.val.value);
      }
    }
  }

  /** What is written once `n` pairs are out: a separator follows unless they are all. */
  function Lead(cs: seq<Piece>, n: nat): bytes
    requires n <= |cs|
  {
    if 0 < n < |cs| then Join(cs, n) + SEPARATOR else Join(cs, n)
  }

  lemma {:induction false} LeadNext(cs: seq<Piece>, n: nat)
    requires n < |cs|
    ensures Lead(cs, n) + cs[n].text == Join(cs, n + 1)
  {
  }

  method Estimate(h: HStore, ghost ps: seq<Pair>) returns (buflen: nat)
    requires WellFormed(h) && ps == Pairs(h)
    ensures buflen == Needs(ps, |ps|)
  {
    buflen := 0;
    for i := 0 to Count(h)
      invariant buflen == Needs(ps, i)
    {
      var p := ReadPair(h, i, ps);
      buflen := buflen + PairNeeds(p);
    }
  }

  method WritePairs(h: HStore, w: Writer, ghost ps: seq<Pair>)
    requires WellFormed(h) && ps == Pairs(h) && Count(h) > 0 && w.ptr == 0 && w.out.Length == Needs(ps, |ps|)
    modifies w, w.out
    ensures w.ptr < w.out.Length && w.Written() == Text(ps)
  {
    ghost var cs := PairTexts(ps, |ps|);
    for i := 0 to Count(h)
      invariant w.ptr <= w.out.Length && w.Written() == Lead(cs, i)
      invariant w.ptr <= if 0 < i == Count(h) then Needs(ps, i) - 2 else Needs(ps, i)
    {
      WriteNext(h, w, i, ps, cs);
    }
  }

  /** One round of the loop of `hstore_out`: a pair, and a separator if another follows. */
  method WriteNext(h: HStore, w: Writer, i: nat, ghost ps: seq<Pair>, ghost cs: seq<Piece>)
    requires WellFormed(h) && ps == Pairs(h) && i < Count(h) && w.out.Length == Needs(ps, |ps|)
    requires cs == PairTexts(ps, |ps|) && w.ptr <= w.out.Length && w.Written() == Lead(cs, i)
    requires w.ptr <= Needs(ps, i)
    modifies w, w.out
    ensures w.ptr <= w.out.Length && w.Written() == Lead(cs, i + 1)
    ensures w.ptr <= if i + 1 == Count(h) then Needs(ps, i + 1) - 2 else Needs(ps, i + 1)
  {
    NeedsGrow(ps, i + 1, |ps|);
    LeadNext(cs, i);
    assert cs[i].text == PairText(ps[i]);
    var p := ReadPair(h, i, ps);
    w.PutPair(p);
    if i + 1 != Count(h) { w.PutAll(SEPARATOR); }
  }

  lemma {:induction false} NeedsGrow(ps: seq<Pair>, m: nat, n: nat)
    requires m <= n <= |ps|
    ensures Needs(ps, m) <= Needs(ps, n)
  {
    if m < n { NeedsGrow(ps, m, n - 1); }
  }

  /**
   * `hstore_out`: the text, unless the estimate of its length is more than can be allocated.
   * The text and its terminator fit in the buffer.
   */
  method Out(h: HStore) returns (r: Option<bytes>)
    requires WellFormed(h)
    ensures r == if Needs(Pairs(h), Count(h)) <= MAX_ALLOC then Some(Text(Pairs(h))) else None
  {
    ghost var ps := Pairs(h);
    if Count(h) == 0 { return Some([]); }
    var buflen := Estimate(h, ps);
    if buflen > MAX_ALLOC { return None; }
    var w := new Writer(buflen);
    WritePairs(h, w, ps);
    var text := w.out[..w.ptr];
    w.out[w.ptr] := 0;
    return Some(text);
  }

  // ----- Round trip -----

  lemma {:induction false} PairClean(h: HStore, i: nat)
    requires Canonical(h) && NoZero(h.buf) && i < Count(h)
    ensures Clean(Pairs(h)[i])
  {
    PairsAt(h, i);
  }

  lemma {:induction false} PairsClean(h: HStore)
    requires Canonical(h) && NoZero(h.buf)
    ensures AllClean(Pairs(h))
  {
    var ps := Pairs(h);
    forall p | p in ps ensures Clean(p) {
      var i :| 0 <= i < |ps| && ps[i] == p;
      PairClean(h, i);
    }
  }

  /** Keys and values that can be printed are short enough for the parser. */
  lemma {:induction false} PrintableIsShort(ps: seq<Pair>)
    requires Needs(ps, |ps|) <= MAX_ALLOC
    ensures AllShort(ps)
  {
    forall i: nat | i < |ps| ensures Short(ps[i]) { NeedsGrow(ps, i + 1, |ps|); }
  }

  /**
   * What is printed from a canonical value without zero bytes is read back as that value, if
   * it can be printed and has no more pairs than the parser can hold; otherwise one of the two
   * functions fails.
   */
  method OutThenIn(h: HStore) returns (t: Option<bytes>, g: Option<HStore>)
    requires Canonical(h) && NoZero(h.buf)
    ensures t.Some? <==> Needs(Pairs(h), Count(h)) <= MAX_ALLOC
    ensures g == if Needs(Pairs(h), Count(h)) <= MAX_ALLOC && Count(h) <= PAIRS_MAX then Some(h) else None
  {
    ghost var ps := Pairs(h);
    t := Out(h);
    if t.None? { return None, None; }
    PairsClean(h);
    PrintThenParse(ps);
    PrintableIsShort(ps);
    g := In(t.value);
    if Count(h) <= PAIRS_MAX { ReadIs(h, g); }
  }

  lemma {:induction false} ReadIs(h: HStore, g: Option<HStore>)
    requires Canonical(h)
    requires exists ps :: Distilled(ps, Pairs(h)) && g == if PackedSize(ps) <= MAX_ALLOC then Some(Pack(ps)) else None
    ensures g == Some(h)
  {
    var qs :| Distilled(qs, Pairs(h)) && g == if PackedSize(qs) <= MAX_ALLOC then Some(Pack(qs)) else None;
    DistilledSorted(qs, Pairs(h));
    ReadThenPack(h);
  }

  // ----- A value that is printed and not read -----

  /** The last `n` digits of `x` to the base 255, as bytes that are not zero. */
  function Digits(x: nat, n: nat): (s: bytes)
    ensures |s| == n && NoZero(s)
  {
    if n == 0 then [] else Digits(x / 255, n - 1) + [x % 255 + 1]
  }

  /** 255 to the power of `n`. */
  function Power(n: nat): (p: nat)
    ensures p > 0
  {
    if n == 0 then 1 else 255 * Power(n - 1)
  }

  /** Larger numbers have larger digits. */
  lemma {:induction false} DigitsRise(x: nat, y: nat, n: nat)
    requires x < y < Power(n)
    ensures Less(Digits(x, n), Digits(y, n))
  {
    var a, b := Digits(x / 255, n - 1), Digits(y / 255, n - 1);
    if x / 255 == y / 255 {
      LcpIs(Digits(x, n), Digits(y, n), n - 1);
    } else {
      DigitsRise(x / 255, y / 255, n - 1);
      var k := Lcp(a, b);
      LcpIs(Digits(x, n), Digits(y, n), k);
    }
  }

  /** `n` pairs with keys of four bytes and null values. */
  function ManyPairs(n: nat): (ps: seq<Pair>)
    ensures |ps| == n && forall i | 0 <= i < n :: ps[i] == Pair(Digits(i, 4), None)
  {
    seq(n, i requires 0 <= i < n => Pair(Digits(i, 4), None))
  }

  lemma {:induction false} ManySizes(ps: seq<Pair>, n: nat)
    requires n <= |ps| && forall i | 0 <= i < |ps| :: |ps[i].key| == 4 && ps[i].val.None? && NoZero(ps[i].key)
    ensures RoomOf(ps, n) == 4 * n && Needs(ps, n) == 18 * n && NoZero(BufOf(ps, n))
  {
    if n > 0 { ManySizes(ps, n - 1); }
  }

  /** A canonical value without zero bytes, with one pair too many for the parser; it can be printed. */
  lemma {:induction false} PrintedNotRead() returns (h: HStore)
    ensures Canonical(h) && NoZero(h.buf) && Count(h) == PAIRS_MAX + 1 && Needs(Pairs(h), Count(h)) <= MAX_ALLOC
  {
    var ps := ManyPairs(PAIRS_MAX + 1);
    ManySizes(ps, |ps|);
    ManySorted(ps);
    RoomIsLength(ps, |ps|);
    h := Pack(ps);
    PackThenRead(ps);
  }

  lemma {:induction false} ManySorted(ps: seq<Pair>)
    requires |ps| <= Power(4) && forall i | 0 <= i < |ps| :: ps[i] == Pair(Digits(i, 4), None)
    ensures Sorted(ps)
  {
    forall i: nat | 0 < i < |ps| ensures StepUp(ps, i) { DigitsRise(i - 1, i, 4); }
  }
}
