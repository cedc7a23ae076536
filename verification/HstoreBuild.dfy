/**
 * Building an hstore: sorting and thinning out a list of pairs in place, and writing
 * pairs into a fresh value.
 */
module HstoreBuild {
  import opened Machine
  import opened Options
  import opened Bytea
  import opened HstorePairs
  import opened HstorePacked
  import opened HstoreEntries

  // ----- Distinct pairs -----

  /** `r` is sorted and has one of the pairs of `s` for each key of `s`. */
  ghost predicate Distilled(r: seq<Pair>, s: seq<Pair>) {
    Sorted(r) && Keys(r) == Keys(s) && forall p | p in r :: p in s
  }

  /** A sorted list has nothing to distill. */
  lemma {:induction false} DistilledSorted(r: seq<Pair>, s: seq<Pair>)
    requires Distilled(r, s) && Sorted(s)
    ensures r == s
  {
    forall k ensures Lookup(r, k) == Lookup(s, k) {
      LookupKeys(r, k);
      LookupKeys(s, k);
      if Lookup(r, k).Some? {
        LookupIn(s, Pair(k, Lookup(r, k).value));
      }
    }
    LookupDetermines(r, s);
  }

  // ----- Sorting, as a stand-in for qsort -----

  ghost predicate Ordered(s: seq<Pair>) {
    forall i, j | 0 <= i < j < |s| :: !KeyLess(s[j].key, s[i].key)
  }

  lemma {:induction false} NotLessTransitive(a: bytes, b: bytes, c: bytes)
    requires !KeyLess(b, a) && !KeyLess(c, b)
    ensures !KeyLess(c, a)
  {
    KeyOrder(a, b);
    KeyOrder(b, c);
    if a != b && b != c {
      KeyLessTransitive(a, b, c);
      KeyOrder(a, c);
    }
  }

  method InsertPair(s: seq<Pair>, p: Pair) returns (r: seq<Pair>)
    requires Ordered(s)
    ensures Ordered(r) && multiset(r) == multiset(s) + multiset{p} && |r| == |s| + 1
  {
    var i := 0;
    while i < |s| && !KeyLess(p.key, s[i].key)
      invariant 0 <= i <= |s|
      invariant forall j | 0 <= j < i :: !KeyLess(p.key, s[j].key)
    {
      i := i + 1;
    }
    forall j | i <= j < |s| ensures !KeyLess(s[j].key, p.key) {
      KeyOrder(p.key, s[i].key);
      if i < j { NotLessTransitive(p.key, s[i].key, s[j].key); }
    }
    assert s == s[..i] + s[i..];
    r := s[..i] + [p] + s[i..];
  }

  method SortPairs(s: seq<Pair>) returns (r: seq<Pair>)
    ensures Ordered(r) && multiset(r) == multiset(s) && |r| == |s|
  {
    r := [];
    for n := 0 to |s|
      invariant Ordered(r) && multiset(r) == multiset(s[..n]) && |r| == n
    {
      r := InsertPair(r, s[n]);
      assert s[..n + 1] == s[..n] + [s[n]];
    }
    assert s[..|s|] == s;
  }

  // ----- Thinning out -----

  /** What is kept of the first `n` pairs: the first of each run with equal keys. */
  function Kept(s: seq<Pair>, n: nat): (r: seq<Pair>)
    requires 1 <= n <= |s|
    ensures 1 <= |r| <= n
  {
    if n == 1 then [s[0]]
    else
      var r := Kept(s, n - 1);
      if s[n - 1].key == r[|r| - 1].key then r else r + [s[n - 1]]
  }

  lemma {:induction false} KeptSorted(s: seq<Pair>, n: nat)
    requires Ordered(s) && 1 <= n <= |s|
    ensures Sorted(Kept(s, n)) && Kept(s, n)[|Kept(s, n)| - 1].key == s[n - 1].key
  {
    if n > 1 {
      KeptSorted(s, n - 1);
      KeyOrder(s[n - 2].key, s[n - 1].key);
      if s[n - 1].key != s[n - 2].key { SortedAppend(Kept(s, n - 1), s[n - 1]); }
    }
  }

  /** Only pairs of the list are kept, and every key is. */
  lemma {:induction false} KeptKeys(s: seq<Pair>, n: nat)
    requires 1 <= n <= |s|
    ensures forall p | p in Kept(s, n) :: p in s
    ensures forall i | 0 <= i < n :: s[i].key in Keys(Kept(s, n))
  {
    var r := Kept(s, n);
    if n == 1 {
      assert s[0] in r;
    } else {
      KeptKeys(s, n - 1);
      var q := Kept(s, n - 1);
      assert q[|q| - 1] in q && q <= r;
      forall i | 0 <= i < n ensures s[i].key in Keys(r) {
        if i < n - 1 {
          var p :| p in q && p.key == s[i].key;
          assert p in r;
        } else if r == q {
          assert q[|q| - 1].key == s[i].key;
        } else {
          assert s[n - 1] in r;
        }
      }
    }
  }

  lemma {:induction false} KeptDistilled(s: seq<Pair>, was: seq<Pair>)
    requires Ordered(s) && s != [] && multiset(s) == multiset(was)
    ensures Distilled(Kept(s, |s|), was)
  {
    KeptSorted(s, |s|);
    KeptKeys(s, |s|);
    assert forall p :: p in s <==> p in multiset(s);
    assert forall p :: p in was <==> p in multiset(was);
    forall k | k in Keys(was) ensures k in Keys(Kept(s, |s|)) {
      var p :| p in was && p.key == k;
      var i :| 0 <= i < |s| && s[i] == p;
    }
  }

  /** From place `n` on the array is as it was. */
  ghost predicate KeptFrom(a: array<Pair>, n: nat, was: seq<Pair>)
    reads a
  {
    |was| == a.Length && forall i | n <= i < a.Length :: a[i] == was[i]
  }

  method SortArray(a: array<Pair>, l: nat) returns (ghost s: seq<Pair>)
    requires l <= a.Length
    modifies a
    ensures |s| == l && a[..l] == s && KeptFrom(a, l, old(a[..]))
    ensures Ordered(s) && multiset(s) == multiset(old(a[..l]))
  {
    var r := SortPairs(a[..l]);
    forall i | 0 <= i < l { a[i] := r[i]; }
    s := r;
  }

  /**
   * `hstoreUniquePairs`: sort, then drop in place what repeats the key before it. Also adds
   * up the bytes that the remaining pairs need.
   */
  method UniquePairs(a: array<Pair>, l: nat) returns (n: nat, buflen: nat)
    requires l <= a.Length
    modifies a
    ensures n <= l && Distilled(a[..n], old(a[..l])) && KeptFrom(a, l, old(a[..]))
    ensures buflen == |BufOf(a[..n], n)|
  {
    if l < 2 {
      assert old(a[..l]) == a[..l];
      return l, if l == 1 then |PairBytes(a[0])| else 0;
    }
    ghost var s := SortArray(a, l);
    n, buflen := ThinOut(a, l, s);
    KeptDistilled(s, old(a[..l]));
    RoomIsLength(a[..n], n);
  }

  method ThinOut(a: array<Pair>, l: nat, ghost s: seq<Pair>) returns (n: nat, buflen: nat)
    requires 1 <= l <= a.Length && s == a[..l]
    modifies a
    ensures n <= l && a[..n] == Kept(s, l) && KeptFrom(a, l, old(a[..]))
    ensures buflen == RoomOf(a[..n], n)
  {
    var ptr, res := 1, 0;
    buflen := 0;
    ghost var k, was := [s[0]], a[..];
    while ptr < l
      invariant 0 <= res < ptr <= l
      invariant k == Kept(s, ptr) && |k| == res + 1 && buflen == RoomOf(k, res)
      invariant forall i | 0 <= i <= res :: a[i] == k[i]
      invariant KeptFrom(a, ptr, was)
    {
      assert was[ptr] == s[ptr];
      res, buflen, k := KeepNext(a, ptr, res, buflen, k);
      ptr := ptr + 1;
    }
    buflen := buflen + |PairBytes(a[res])|;
    n := res + 1;
    assert a[..n] == k;
  }

  /** One round of the loop: keep the pair at `ptr` unless it repeats the key of the last one kept. */
  method KeepNext(a: array<Pair>, ptr: nat, res: nat, buflen: nat, ghost k: seq<Pair>)
    returns (res': nat, buflen': nat, ghost k': seq<Pair>)
    requires res < ptr < a.Length && |k| == res + 1 && buflen == RoomOf(k, res)
    requires forall i | 0 <= i <= res :: a[i] == k[i]
    modifies a
    ensures k' == if old(a[ptr]).key == k[res].key then k else k + [old(a[ptr])]
    ensures res' <= ptr && |k'| == res' + 1 && buflen' == RoomOf(k', res')
    ensures forall i | 0 <= i <= res' :: a[i] == k'[i]
    ensures KeptFrom(a, ptr + 1, old(a[..]))
  {
    res', buflen', k' := res, buflen, k;
    if a[ptr].key != a[res].key {
      AppendKept(k, a[ptr]);
      buflen' := buflen + |PairBytes(a[res])|;
      res' := res + 1;
      k' := k + [a[ptr]];
      a[res'] := a[ptr];
    }
  }

  lemma {:induction false} AppendKept(k: seq<Pair>, p: Pair)
    requires k != []
    ensures RoomOf(k + [p], |k|) == RoomOf(k, |k| - 1) + |PairBytes(k[|k| - 1])|
  {
    RoomAppend(k, p, |k|);
  }

  // ----- Writing -----

  /** The entries of the first `n` pairs, before the first one is flagged. */
  function RawSlots(ps: seq<Pair>, n: nat): (slots: seq<Slot>)
    requires n <= |ps|
    ensures |slots| == n
  {
    if n == 0 then [] else RawSlots(ps, n - 1) + [SlotFor(ps[n - 1], |BufOf(ps, n - 1)|, false)]
  }

  lemma {:induction false} FlagRawSlots(ps: seq<Pair>, n: nat)
    requires 1 <= n <= |ps|
    ensures RawSlots(ps, n)[0 := Flagged(RawSlots(ps, n)[0])] == SlotsOf(ps, n)
  {
    if n > 1 { FlagRawSlots(ps, n - 1); }
  }

  lemma {:induction false} SlotsStorable(ps: seq<Pair>)
    requires |BufOf(ps, |ps|)| < POSLIMIT
    ensures forall i: nat | i < |ps| :: Storable(SlotsOf(ps, |ps|)[i])
  {
    forall i: nat | i < |ps| ensures Storable(SlotsOf(ps, |ps|)[i]) {
      SlotsOfAt(ps, |ps|, i);
      BufOfGrows(ps, i + 1, |ps|);
    }
  }

  /** The entries as they are computed: positions relative to the string buffer, masked. */
  function MaskedSlot(used: nat, vallen: nat, isNull: bool): Slot
    requires vallen <= used
  {
    Slot(Entry((used - vallen) % POSLIMIT, false, false), Entry(used % POSLIMIT, isNull, false))
  }

  /** The mask takes nothing away. */
  lemma {:induction false} SlotWithMask(p: Pair, at: nat, used: nat, vallen: nat)
    requires used == at + |PairBytes(p)| < POSLIMIT && vallen == |ValBytes(p)|
    ensures MaskedSlot(used, vallen, p.val.None?) == SlotFor(p, at, false)
  {
  }

  /** Entries and string buffer as bytes. */
  datatype Content = Content(entries: bytes, str: bytes)

  /** The entries with the first one flagged. */
  function WithFlag(entries: bytes): bytes
    requires |entries| >= 4
  {
    WordBytes(FlagWord(WordAt(entries, 0))) + entries[4..]
  }

  /** Memory with `b` written at `at`. */
  function Splice(mem: bytes, at: nat, b: bytes): (r: bytes)
    requires at + |b| <= |mem|
    ensures |r| == |mem|
  {
    mem[..at] + b + mem[at + |b|..]
  }

  lemma {:induction false} SpliceString(mem: bytes, base: nat, count: nat, used: nat, b: bytes)
    requires 8 * count <= base && base + used + |b| <= |mem|
    ensures Filled(Splice(mem, base + used, b), base, count, used + |b|)
         == Content(Filled(mem, base, count, used).entries, Filled(mem, base, count, used).str + b)
  {
    var m := Splice(mem, base + used, b);
    assert m[..8 * count] == mem[..8 * count];
    assert m[base..base + (used + |b|)] == mem[base..base + used] + b;
  }

  lemma {:induction false} SpliceEntries(mem: bytes, base: nat, count: nat, used: nat, b: bytes)
    requires 8 * (count + 1) <= base && base + used <= |mem| && |b| == 8
    ensures Filled(Splice(mem, 8 * count, b), base, count + 1, used)
         == Content(Filled(mem, base, count, used).entries + b, Filled(mem, base, count, used).str)
  {
    var m := Splice(mem, 8 * count, b);
    assert m[..8 * (count + 1)] == mem[..8 * count] + b;
    assert m[base..base + used] == mem[base..base + used];
  }

  lemma {:induction false} SpliceFlag(mem: bytes, base: nat, count: nat, used: nat)
    requires 0 < count && 8 * count <= base && base + used <= |mem|
    ensures Filled(Splice(mem, 0, WordBytes(FlagWord(WordAt(mem, 0)))), base, count, used)
         == Content(WithFlag(Filled(mem, base, count, used).entries), Filled(mem, base, count, used).str)
  {
    var b := WordBytes(FlagWord(WordAt(mem, 0)));
    var m, e := Splice(mem, 0, b), mem[..8 * count];
    assert WordAt(e, 0) == WordAt(mem, 0);
    assert m[..8 * count] == b + e[4..];
    assert m[base..base + used] == mem[base..base + used];
  }

  lemma {:induction false} FilledLengths(mem: bytes, base: nat, count: nat, used: nat)
    requires 8 * count <= base && base + used <= |mem|
    ensures |Filled(mem, base, count, used).entries| == 8 * count && |Filled(mem, base, count, used).str| == used
  {
  }

  /** The bytes of one more pair go behind those of the others. */
  function AddContent(c: Content, p: Pair): Content {
    Content(c.entries + SlotBytes(SlotFor(p, |c.str|, false)), c.str + PairBytes(p))
  }

  /** What the bytes of the first `n` pairs are, before the first entry is flagged. */
  function ContentOf(ps: seq<Pair>, n: nat): Content
    requires n <= |ps|
  {
    if n == 0 then Content([], []) else AddContent(ContentOf(ps, n - 1), ps[n - 1])
  }

  lemma {:induction false} ContentPrefix(ps: seq<Pair>, p: Pair, n: nat)
    requires n <= |ps|
    ensures ContentOf(ps + [p], n) == ContentOf(ps, n)
  {
    if n > 0 { ContentPrefix(ps, p, n - 1); }
  }

  /** The string part is written first, then the entries. */
  lemma {:induction false} AddedContent(ps: seq<Pair>, p: Pair, c: Content, slot: Slot)
    requires c == Content(ContentOf(ps, |ps|).entries, ContentOf(ps, |ps|).str + PairBytes(p))
    requires slot == SlotFor(p, |ContentOf(ps, |ps|).str|, false)
    ensures ContentOf(ps + [p], |ps| + 1) == Content(c.entries + SlotBytes(slot), c.str)
  {
    ContentPrefix(ps, p, |ps|);
  }

  lemma {:induction false} ContentIs(ps: seq<Pair>, n: nat)
    requires n <= |ps|
    ensures ContentOf(ps, n) == Content(Image(RawSlots(ps, n), n), BufOf(ps, n))
  {
    if n > 0 {
      ContentIs(ps, n - 1);
      ImageMore(RawSlots(ps, n - 1), SlotFor(ps[n - 1], |BufOf(ps, n - 1)|, false));
    }
  }

  /** What memory holds once entries up to `count` and `used` bytes behind `base` are filled. */
  function Filled(mem: bytes, base: nat, count: nat, used: nat): Content
    requires 8 * count <= base && base + used <= |mem|
  {
    Content(mem[..8 * count], mem[base..base + used])
  }

  lemma {:induction false} NextRoom(ps: seq<Pair>, i: nat)
    requires i < |ps|
    ensures ps[..i + 1] == ps[..i] + [ps[i]]
    ensures RoomOf(ps, i + 1) == RoomOf(ps, i) + |PairBytes(ps[i])| <= RoomOf(ps, |ps|)
  {
    RoomGrows(ps, i + 1, |ps|);
  }

  /**
   * An hstore under construction, in one piece of memory: room for the entries of `maxPairs`
   * pairs, then the string buffer; and how far each is filled.
   */
  class Builder {
    const maxPairs: nat
    const maxBytes: nat
    const mem: array<byte>
    var count: nat
    var used: nat
    ghost var content: Content
    ghost var pairs: seq<Pair>

    /** Where the string buffer starts. */
    function Base(): nat { 8 * maxPairs }

    ghost predicate Sized()
      reads this
    {
      mem.Length == Base() + maxBytes && maxBytes < POSLIMIT && count <= maxPairs && used <= maxBytes
    }

    /** What memory holds, as bytes. */
    ghost predicate Holds()
      reads this, mem
    {
      Sized() && Filled(mem[..], Base(), count, used) == content
    }

    /** Memory holds the bytes of the pairs. */
    ghost predicate Valid()
      reads this, mem
    {
      Holds() && count == |pairs| && content == ContentOf(pairs, count)
    }

    constructor (maxPairs: nat, maxBytes: nat)
      requires maxBytes < POSLIMIT
      ensures Valid() && pairs == [] && used == 0 && fresh(mem)
      ensures this.maxPairs == maxPairs && this.maxBytes == maxBytes
    {
      this.maxPairs, this.maxBytes := maxPairs, maxBytes;
      mem := new byte[8 * maxPairs + maxBytes];
      count, used, pairs, content := 0, 0, [], Content([], []);
    }

    /** memcpy to a place in memory. */
    method WriteAt(at: nat, b: bytes)
      requires at + |b| <= mem.Length
      modifies mem
      ensures mem[..] == Splice(old(mem[..]), at, b)
    {
      ghost var was := mem[..];
      var k := 0;
      while k < |b|
        invariant 0 <= k <= |b|
        invariant forall i | 0 <= i < |was| :: mem[i] == if at <= i < at + k then b[i - at] else was[i]
      {
        mem[at + k] := b[k];
        k := k + 1;
      }
      assert mem[..] == Splice(was, at, b);
    }

    /** memcpy to the end of the string buffer. */
    method Put(b: bytes)
      requires Holds() && used + |b| <= maxBytes
      modifies this`used, this`content, mem
      ensures Holds() && used == old(used) + |b|
      ensures content == Content(old(content.entries), old(content.str) + b)
    {
      SpliceString(mem[..], Base(), count, used, b);
      WriteAt(Base() + used, b);
      used := used + |b|;
      content := Content(content.entries, content.str + b);
    }

    /** Store the entries of one more pair behind the others. */
    method PutEntries(slot: Slot)
      requires Holds() && count < maxPairs
      modifies this`count, this`content, mem
      ensures Holds() && count == old(count) + 1
      ensures content == Content(old(content.entries) + SlotBytes(slot), old(content.str))
    {
      var b := SlotBytes(slot);
      SpliceEntries(mem[..], Base(), count, used, b);
      WriteAt(8 * count, b);
      count := count + 1;
      content := Content(content.entries + b, content.str);
    }

    /** Record the entries of the pair whose bytes have just been written; positions are masked. */
    method PutSlot(ghost p: Pair, vallen: nat, isNull: bool)
      requires Holds() && count == |pairs| < maxPairs
      requires content == Content(ContentOf(pairs, count).entries, ContentOf(pairs, count).str + PairBytes(p))
      requires vallen == |ValBytes(p)| && isNull == p.val.None?
      modifies this`count, this`pairs, this`content, mem
      ensures Valid() && pairs == old(pairs) + [p]
    {
      ghost var c, ps := content, pairs;
      FilledLengths(mem[..], Base(), count, used);
      SlotWithMask(p, |ContentOf(ps, count).str|, used, vallen);
      var slot := MaskedSlot(used, vallen, isNull);
      PutEntries(slot);
      AddedContent(ps, p, c, slot);
      pairs := ps + [p];
    }

    /** `HS_COPYITEM`: the next pair is pair `i` of `src`, copied as one run of bytes. */
    method CopyItem(src: HStore, i: nat)
      requires Valid() && count < maxPairs
      requires i < Count(src) && WellPlaced(src.slots, |src.buf|, i) && Tidy(src.slots[i])
      requires used + |PairBytes(PairAt(src, i))| <= maxBytes
      modifies this, mem
      ensures Valid() && pairs == old(pairs) + [PairAt(src, i)]
      ensures used == old(used) + |PairBytes(PairAt(src, i))|
    {
      var s, before := src.slots[i], Before(src.slots, i);
      var from, keylen, vallen := Off(s.key, before), Len(s.key, before), Len(s.val, s.key.end);
      PairSpans(src, i);
      Put(src.buf[from..from + keylen + vallen]);
      PutSlot(PairAt(src, i), vallen, s.val.isNull);
    }

    /** `HS_ADDITEM`: the next pair is `p`. */
    method AddItem(p: Pair)
      requires Valid() && count < maxPairs && used + |PairBytes(p)| <= maxBytes
      modifies this, mem
      ensures Valid() && pairs == old(pairs) + [p] && used == old(used) + |PairBytes(p)|
    {
      ghost var was := content.str;
      Put(p.key);
      if p.val.None? {
        assert was + p.key == was + PairBytes(p);
        PutSlot(p, 0, true);
      } else {
        Put(p.val.value);
        assert was + p.key + p.val.value == was + PairBytes(p);
        PutSlot(p, |p.val.value|, false);
      }
    }

    /** The first `i` pairs of the list have been added. */
    ghost predicate Added(ps: seq<Pair>, i: nat)
      reads this, mem
    {
      Valid() && i <= |ps| && pairs == ps[..i] && used == RoomOf(ps, i)
    }

    method AddNth(ps: seq<Pair>, i: nat)
      requires Added(ps, i) && i < |ps| <= maxPairs && RoomOf(ps, |ps|) <= maxBytes
      modifies this, mem
      ensures Added(ps, i + 1)
    {
      NextRoom(ps, i);
      AddItem(ps[i]);
    }

    method AddAll(ps: seq<Pair>)
      requires Valid() && pairs == [] && used == 0 && |ps| <= maxPairs && RoomOf(ps, |ps|) <= maxBytes
      modifies this, mem
      ensures Valid() && pairs == ps
    {
      for i := 0 to |ps|
        invariant Added(ps, i)
      {
        AddNth(ps, i);
      }
      assert ps[..|ps|] == ps;
    }

    /** Set the flag of the first entry. */
    method FlagFirst()
      requires Holds() && count > 0
      modifies this`content, mem
      ensures Holds() && content == Content(WithFlag(old(content.entries)), old(content.str))
    {
      SpliceFlag(mem[..], Base(), count, used);
      var w := WordAt(mem[..], 0);
      WriteAt(0, WordBytes(FlagWord(w)));
      content := Content(WithFlag(content.entries), content.str);
    }

    /** memmove of `n` bytes down from `from` to `to`. */
    method Slide(from: nat, to: nat, n: nat)
      requires to <= from && from + n <= mem.Length
      modifies mem
      ensures mem[..to + n] == old(mem[..to]) + old(mem[from..from + n])
    {
      ghost var was := mem[..];
      for k := 0 to n
        invariant forall j | 0 <= j < to :: mem[j] == was[j]
        invariant forall j | to <= j < to + k :: mem[j] == was[j - to + from]
        invariant forall j | from + k <= j < from + n :: mem[j] == was[j]
      {
        mem[to + k] := mem[from + k];
      }
    }

    /** memmove of the string buffer down to the end of the entries. */
    method MoveDown()
      requires Holds()
      modifies mem
      ensures mem[..8 * count + used] == content.entries + content.str
    {
      ghost var was := mem[..];
      assert content.entries == was[..8 * count] && content.str == was[Base()..Base() + used];
      assert mem[..8 * count] == was[..8 * count] && mem[Base()..Base() + used] == was[Base()..Base() + used];
      Slide(Base(), 8 * count, used);
    }

    /** Flag the first entry and close the gap between entries and string buffer, if there is one. */
    method Compact()
      requires Holds()
      modifies this`content, mem
      ensures 8 * count + used <= mem.Length && |content.str| < POSLIMIT
      ensures content == if count == 0 then old(content) else Content(WithFlag(old(content.entries)), old(content.str))
      ensures mem[..8 * count + used] == content.entries + content.str
    {
      if count > 0 { FlagFirst(); }
      if count != maxPairs {
        MoveDown();
      } else {
        assert mem[..8 * count + used] == mem[..][..8 * count] + mem[..][Base()..Base() + used];
      }
    }

    /** `HS_FINALIZE`: what is then in memory is the packing of the pairs. */
    method Finalize() returns (h: HStore)
      requires Valid()
      modifies this`content, mem
      ensures h == Pack(pairs)
      ensures 8 * count + used <= mem.Length && mem[..8 * count + used] == Image(h.slots, count) + h.buf
    {
      FinalEntries(pairs);
      Compact();
      assert content == FinalContent(pairs);
      h := Load();
    }

    method Load() returns (h: HStore)
      requires 8 * count + used <= mem.Length && count == |pairs| && |content.str| < POSLIMIT
      requires content == FinalContent(pairs) && mem[..8 * count + used] == content.entries + content.str
      ensures h == Pack(pairs) && mem[..8 * count + used] == Image(h.slots, count) + h.buf
    {
      var all := mem[..8 * count + used];
      LoadPacked(all, pairs, content);
      h := LoadValue(all, count);
    }
  }

  /** The value that memory with `n` pairs stands for. */
  function LoadValue(mem: bytes, n: nat): HStore
    requires 8 * n <= |mem|
  {
    HStore(LoadSlots(mem, n), mem[8 * n..])
  }

  /** What the bytes of the finished value are. */
  function FinalContent(ps: seq<Pair>): Content { Content(Image(SlotsOf(ps, |ps|), |ps|), BufOf(ps, |ps|)) }

  /** Memory with the entries and bytes of a list of pairs is read as its packing. */
  lemma {:induction false} LoadPacked(all: bytes, ps: seq<Pair>, c: Content)
    requires c == FinalContent(ps) && |c.str| < POSLIMIT && all == c.entries + c.str
    ensures 8 * |ps| <= |all| && LoadValue(all, |ps|) == Pack(ps)
    ensures all == Image(Pack(ps).slots, |ps|) + Pack(ps).buf
  {
    var slots := SlotsOf(ps, |ps|);
    assert all[..8 * |ps|] == Image(slots, |ps|) && all[8 * |ps|..] == c.str;
    SlotsStorable(ps);
    LoadImage(all, slots, |ps|);
    assert slots[..|ps|] == slots;
  }

  /** With the flag set, the entries are those of the packing. */
  lemma {:induction false} FinalEntries(ps: seq<Pair>)
    ensures var c := ContentOf(ps, |ps|);
            && |c.entries| == 8 * |ps|
            && FinalContent(ps) == if ps == [] then c else Content(WithFlag(c.entries), c.str)
  {
    ContentIs(ps, |ps|);
    if ps != [] {
      var entries, slots := ContentOf(ps, |ps|).entries, RawSlots(ps, |ps|);
      FirstWord(entries, slots, |ps|);
      RawFirst(ps, |ps|);
      FlaggedWord(slots[0].key);
      ImageFlagged(slots, |ps|);
      FlagRawSlots(ps, |ps|);
    }
  }

  lemma {:induction false} RawFirst(ps: seq<Pair>, n: nat)
    requires 0 < n <= |ps|
    ensures !RawSlots(ps, n)[0].key.isFirst
  {
    if n > 1 { RawFirst(ps, n - 1); }
  }

  lemma {:induction false} FirstWord(mem: bytes, slots: seq<Slot>, n: nat)
    requires 0 < n <= |slots| && mem == Image(slots, n)
    ensures WordAt(mem, 0) == EntryWord(slots[0].key)
  {
    FirstBytes(slots, n);
    WordRoundTrip(mem, 0, EntryWord(slots[0].key));
  }

  lemma {:induction false} FirstBytes(slots: seq<Slot>, n: nat)
    requires 0 < n <= |slots|
    ensures Image(slots, n)[0..4] == WordBytes(EntryWord(slots[0].key))
  {
    if n == 1 {
      assert Image(slots, 1) == Image(slots, 0) + SlotBytes(slots[0]) == SlotBytes(slots[0]);
    } else {
      FirstBytes(slots, n - 1);
    }
  }

  /** `hstorePairs`: an hstore with the given pairs, or an error if it cannot be allocated. */
  method FromPairs(ps: seq<Pair>, buflen: nat) returns (r: Option<HStore>)
    requires |BufOf(ps, |ps|)| <= buflen
    ensures r == if SizeFor(|ps|, buflen) <= MAX_ALLOC then Some(Pack(ps)) else None
  {
    if SizeFor(|ps|, buflen) > MAX_ALLOC { return None; }
    RoomIsLength(ps, |ps|);
    var b := new Builder(|ps|, buflen);
    b.AddAll(ps);
    var h := b.Finalize();
    r := Some(h);
  }
}
