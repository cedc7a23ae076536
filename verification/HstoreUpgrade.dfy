/**
 * What an upgrade keeps: every value packed in the old format passes its test and becomes the packed
 * value of its pairs, every packed value without the version flag passes the test of the new format,
 * and a value that only gets the flag keeps the pairs that its entries say.
 */
module HstoreUpgrade {
  import opened Machine
  import opened Options
  import opened Bytea
  import opened HstorePairs
  import opened HstorePacked
  import opened HstoreEntries
  import opened HstoreCompat
  import opened HstoreAmbiguous

  // ----- Values in the new format -----

  /** Where the bytes of word `j` begin. */
  function Begin(ws: seq<word>, j: nat): nat
    requires j < |ws|
  {
    if j == 0 then 0 else End(ws, j - 1)
  }

  /** The bytes between two ends; nothing if they are not in the string area. */
  function Part(buf: bytes, a: nat, b: nat): bytes { if a <= b <= |buf| then buf[a..b] else [] }

  /** Pair `i` as the words say it. */
  function SaidPair(v: Stored, i: nat): Pair
    requires 2 * i + 1 < |v.ws|
  {
    Pair(Part(v.buf, Begin(v.ws, 2 * i), End(v.ws, 2 * i)),
         if Decode(v.ws[2 * i + 1]).isNull then None
         else Some(Part(v.buf, Begin(v.ws, 2 * i + 1), End(v.ws, 2 * i + 1))))
  }

  lemma {:induction false} EndsRise(ws: seq<word>, varsize: nat, i: nat, j: nat)
    requires NewList(ws, varsize) && i <= j < |ws|
    ensures End(ws, i) <= End(ws, j)
  {
    if i < j {
      assert InStep(ws, j);
      EndsRise(ws, varsize, i, j - 1);
    }
  }

  /** Entries of a value without the version flag that passes the test of the new format. */
  ghost predicate PassesNew(v: Stored) {
    LaidOut(v) && 0 < v.size <= 0xfff_ffff && |v.ws| == 2 * v.size && NewList(v.ws, v.varsize)
  }

  /** `h` has the slots that the words stand for, and as much of the string area as they use. */
  ghost predicate ReadAs(v: Stored, h: HStore) {
    && PassesNew(v) && |h.slots| == v.size && h.buf == Take(v.buf, End(v.ws, 2 * v.size - 1))
    && forall i: nat | i < v.size :: h.slots[i] == SlotAt(v.ws, i)
  }

  lemma {:induction false} FlaggedReadAs(v: Stored)
    requires PassesNew(v)
    ensures ReadAs(v, AsNew(HstoreAmbiguous.Flagged(v)))
  {
    forall i: nat | i < v.size ensures SlotsFrom(v.ws, v.size)[i] == SlotAt(v.ws, i) { SlotsFromAt(v.ws, v.size, i); }
  }

  lemma {:induction false} SlotPlaced(v: Stored, h: HStore, i: nat)
    requires ReadAs(v, h) && i < v.size
    ensures WellPlaced(h.slots, |h.buf|, i) && Before(h.slots, i) == Begin(v.ws, 2 * i)
    ensures Begin(v.ws, 2 * i) <= End(v.ws, 2 * i) <= End(v.ws, 2 * i + 1) <= End(v.ws, 2 * v.size - 1) <= |v.buf|
  {
    if i > 0 { assert InStep(v.ws, 2 * i); }
    assert InStep(v.ws, 2 * i + 1);
    EndsRise(v.ws, v.varsize, 2 * i + 1, 2 * v.size - 1);
  }

  lemma {:induction false} SamePart(buf: bytes, n: nat, a: nat, b: nat)
    requires a <= b <= n <= |buf|
    ensures Take(buf, n)[a..b] == Part(buf, a, b)
  {
  }

  lemma {:induction false} KeyReads(v: Stored, h: HStore, i: nat)
    requires ReadAs(v, h) && i < v.size
    ensures WellPlaced(h.slots, |h.buf|, i) && HstorePacked.KeyAt(h, i) == SaidPair(v, i).key
  {
    SlotPlaced(v, h, i);
    SamePart(v.buf, End(v.ws, 2 * v.size - 1), Begin(v.ws, 2 * i), End(v.ws, 2 * i));
  }

  lemma {:induction false} ValueReads(v: Stored, h: HStore, i: nat)
    requires ReadAs(v, h) && i < v.size
    ensures WellPlaced(h.slots, |h.buf|, i) && ValAt(h, i) == SaidPair(v, i).val
  {
    SlotPlaced(v, h, i);
    SamePart(v.buf, End(v.ws, 2 * v.size - 1), End(v.ws, 2 * i), End(v.ws, 2 * i + 1));
  }

  /** A value that only gets the flag is well-formed and has the pairs that its words say. */
  lemma {:induction false} FlaggedKeepsPairs(v: Stored)
    requires PassesNew(v)
    ensures var u := HstoreAmbiguous.Flagged(v);
            && WellFormed(AsNew(u)) && Count(AsNew(u)) == v.size && u.varsize == Size(AsNew(u)) <= v.varsize
            && forall i: nat | i < v.size :: Pairs(AsNew(u))[i] == SaidPair(v, i)
  {
    var u := HstoreAmbiguous.Flagged(v);
    var h := AsNew(u);
    FlaggedReadAs(v);
    forall i: nat | i < v.size ensures WellPlaced(h.slots, |h.buf|, i) { SlotPlaced(v, h, i); }
    assert WellFormed(h);
    forall i: nat | i < v.size ensures Pairs(h)[i] == SaidPair(v, i) {
      KeyReads(v, h, i);
      ValueReads(v, h, i);
      PairsAt(h, i);
    }
  }

  // ----- Packed values -----

  /** The words of the first `n` slots. */
  function WordsOf(slots: seq<Slot>, n: nat): (ws: seq<word>)
    requires n <= |slots|
    ensures |ws| == 2 * n
  {
    if n == 0 then [] else WordsOf(slots, n - 1) + [EntryWord(slots[n - 1].key), EntryWord(slots[n - 1].val)]
  }

  lemma {:induction false} WordsAt(slots: seq<Slot>, n: nat, i: nat)
    requires i < n <= |slots|
    ensures WordsOf(slots, n)[2 * i] == EntryWord(slots[i].key)
    ensures WordsOf(slots, n)[2 * i + 1] == EntryWord(slots[i].val)
  {
    if i < n - 1 { WordsAt(slots, n - 1, i); }
  }

  /** A packed value as it is stored, without the version flag. */
  function Unflagged(h: HStore): Stored
    requires Count(h) <= 0xfff_ffff
  {
    Stored(Count(h), WordsOf(h.slots, Count(h)), h.buf, Size(h))
  }

  lemma {:induction false} CountIsSmall(h: HStore)
    requires Canonical(h)
    ensures Count(h) <= 0xfff_ffff && Size(h) < POSLIMIT
  {
  }

  lemma {:induction false} WordDecodes(h: HStore, i: nat)
    requires Canonical(h) && i < Count(h)
    ensures var ws := WordsOf(h.slots, Count(h));
            Decode(ws[2 * i]) == h.slots[i].key && Decode(ws[2 * i + 1]) == h.slots[i].val
    ensures WellPlaced(h.slots, |h.buf|, i) && Tidy(h.slots[i])
  {
    CountIsSmall(h);
    WordsAt(h.slots, Count(h), i);
    assert WellPlaced(h.slots, |h.buf|, i);
  }

  /** In a canonical value keys do not get shorter. */
  lemma {:induction false} KeyLengthsRise(h: HStore, i: nat)
    requires Canonical(h) && 0 < i < Count(h)
    ensures WellPlaced(h.slots, |h.buf|, i - 1) && WellPlaced(h.slots, |h.buf|, i)
    ensures |HstorePacked.KeyAt(h, i - 1)| <= |HstorePacked.KeyAt(h, i)|
  {
    PairsAt(h, i - 1);
    PairsAt(h, i);
    assert StepUp(Pairs(h), i);
  }

  lemma {:induction false} PackedStep(h: HStore, j: nat)
    requires Canonical(h) && 0 < j < 2 * Count(h)
    ensures InStep(WordsOf(h.slots, Count(h)), j)
  {
    WordDecodes(h, j / 2);
    if j % 2 == 0 { WordDecodes(h, j / 2 - 1); }
  }

  lemma {:induction false} WordKeyLen(h: HStore, i: nat)
    requires Canonical(h) && i < Count(h)
    ensures WellPlaced(h.slots, |h.buf|, i)
    ensures NewKeyLen(WordsOf(h.slots, Count(h)), i) == |HstorePacked.KeyAt(h, i)|
  {
    WordDecodes(h, i);
    if i > 0 { WordDecodes(h, i - 1); }
  }

  lemma {:induction false} PackedKeyStep(h: HStore, i: nat)
    requires Canonical(h) && 0 < i < Count(h)
    ensures KeyInStep(WordsOf(h.slots, Count(h)), i)
  {
    WordDecodes(h, i);
    WordKeyLen(h, i);
    WordKeyLen(h, i - 1);
    KeyLengthsRise(h, i);
  }

  /** Every packed value passes the test of the new format, with its exact size. */
  lemma {:induction false} PackedPasses(h: HStore)
    requires Canonical(h) && Count(h) > 0
    ensures Count(h) <= 0xfff_ffff && LaidOut(Unflagged(h)) && NewList(Unflagged(h).ws, Size(h))
    ensures SizeFor(Count(h), End(Unflagged(h).ws, 2 * Count(h) - 1)) == Size(h)
  {
    CountIsSmall(h);
    var ws := WordsOf(h.slots, Count(h));
    WordDecodes(h, 0);
    WordDecodes(h, Count(h) - 1);
    forall j: nat | 0 < j < |ws| ensures InStep(ws, j) { PackedStep(h, j); }
    forall i: nat | i > 0 && 2 * i < |ws| ensures KeyInStep(ws, i) { PackedKeyStep(h, i); }
  }

  /** With the flag it is read as it was packed. */
  lemma {:induction false} FlaggedIsPacked(h: HStore)
    requires Canonical(h) && 0 < Count(h) <= 0xfff_ffff
    ensures AsNew(HstoreAmbiguous.Flagged(Unflagged(h))) == h
  {
    PackedPasses(h);
    var v := Unflagged(h);
    var g := AsNew(HstoreAmbiguous.Flagged(v));
    forall i: nat | i < Count(h) ensures g.slots[i] == h.slots[i] {
      SlotsFromAt(v.ws, v.size, i);
      WordDecodes(h, i);
    }
    assert g.slots == h.slots;
    assert Take(h.buf, |h.buf|) == h.buf;
  }

  // ----- Values in the old format -----

  /** Keys and values whose lengths fit in 16 bits. */
  predicate ShortPair(p: Pair) { |p.key| < 65536 && |ValBytes(p)| < 65536 }

  ghost predicate AllShortPairs(ps: seq<Pair>) { forall i: nat | i < |ps| :: ShortPair(ps[i]) }

  /** The first word of an old entry; the length of a null is not used and may be anything. */
  function OldLengths(p: Pair, unused: u16): word
    requires ShortPair(p)
  {
    |p.key| + 65536 * if p.val.None? then unused else |p.val.value|
  }

  function OldPlace(p: Pair, at: nat): word
    requires at < POSLIMIT
  {
    2 * at + if p.val.None? then 1 else 0
  }

  /** The words of the first `n` pairs in the old format. */
  ghost function OldWords(ps: seq<Pair>, unused: seq<u16>, n: nat): (ws: seq<word>)
    requires n <= |ps| == |unused| && AllShortPairs(ps) && PackedSize(ps) < POSLIMIT
    ensures |ws| == 2 * n
  {
    if n == 0 then [] else
      RoomIsLength(ps, |ps|);
      RoomGrows(ps, n - 1, |ps|);
      OldWords(ps, unused, n - 1) + [OldLengths(ps[n - 1], unused[n - 1]), OldPlace(ps[n - 1], RoomOf(ps, n - 1))]
  }

  ghost function OldPack(ps: seq<Pair>, unused: seq<u16>): Stored
    requires |unused| == |ps| <= 0xfff_ffff && AllShortPairs(ps) && PackedSize(ps) < POSLIMIT
  {
    Stored(|ps|, OldWords(ps, unused, |ps|), BufOf(ps, |ps|), PackedSize(ps))
  }

  lemma {:induction false} OldWordsAt(ps: seq<Pair>, unused: seq<u16>, n: nat, i: nat)
    requires i < n <= |ps| == |unused| && AllShortPairs(ps) && PackedSize(ps) < POSLIMIT
    ensures RoomOf(ps, i) < POSLIMIT
    ensures OldWords(ps, unused, n)[2 * i] == OldLengths(ps[i], unused[i])
    ensures OldWords(ps, unused, n)[2 * i + 1] == OldPlace(ps[i], RoomOf(ps, i))
  {
    RoomIsLength(ps, |ps|);
    RoomGrows(ps, i, |ps|);
    if i < n - 1 { OldWordsAt(ps, unused, n - 1, i); }
  }

  lemma {:induction false} OldWordsSay(p: Pair, unused: u16, at: nat)
    requires ShortPair(p) && at < POSLIMIT
    ensures var w := OldLengths(p, unused);
            w % 65536 == |p.key| && w / 65536 == if p.val.None? then unused else |p.val.value|
    ensures var w := OldPlace(p, at); (w % 2 == 1 <==> p.val.None?) && w / 2 == at
  {
  }

  lemma {:induction false} OldEntryIs(ps: seq<Pair>, unused: seq<u16>, i: nat)
    requires i < |ps| == |unused| && |ps| <= 0xfff_ffff && AllShortPairs(ps) && PackedSize(ps) < POSLIMIT
    ensures var e := EntriesOf(OldPack(ps, unused))[i];
            && e.keylen == |ps[i].key| && EntryLen(e) == |PairBytes(ps[i])| && e.pos == RoomOf(ps, i)
            && e.isNull == ps[i].val.None? && ValLen(e) == |ValBytes(ps[i])|
  {
    var v := OldPack(ps, unused);
    OldEntriesAt(v.ws, v.size, i);
    OldWordsAt(ps, unused, |ps|, i);
    OldWordsSay(ps[i], unused[i], RoomOf(ps, i));
  }

  lemma {:induction false} OldTotal(ps: seq<Pair>, unused: seq<u16>, n: nat)
    requires n <= |ps| == |unused| && |ps| <= 0xfff_ffff && AllShortPairs(ps) && PackedSize(ps) < POSLIMIT
    ensures Total(EntriesOf(OldPack(ps, unused)), n) == RoomOf(ps, n)
  {
    if n > 0 {
      OldTotal(ps, unused, n - 1);
      OldEntryIs(ps, unused, n - 1);
    }
  }

  /** Every value packed in the old format passes its test, with its exact size. */
  lemma {:induction false} OldPackPasses(ps: seq<Pair>, unused: seq<u16>)
    requires |unused| == |ps| <= 0xfff_ffff && AllShortPairs(ps) && PackedSize(ps) < POSLIMIT && Sorted(ps)
    ensures var v := OldPack(ps, unused);
            LaidOut(v) && OldFormat(v) && SizeFor(v.size, Total(EntriesOf(v), v.size)) == v.varsize
  {
    var v := OldPack(ps, unused);
    var es := EntriesOf(v);
    RoomIsLength(ps, |ps|);
    OldTotal(ps, unused, |ps|);
    forall i: nat | i < |es| ensures Contiguous(es, i) {
      OldTotal(ps, unused, i);
      OldEntryIs(ps, unused, i);
    }
    forall i: nat | 0 < i < |es| ensures KeyGrows(es, i) {
      OldEntryIs(ps, unused, i);
      OldEntryIs(ps, unused, i - 1);
      assert StepUp(ps, i);
    }
  }

  lemma {:induction false} BytesAt(ps: seq<Pair>, i: nat)
    requires i < |ps|
    ensures RoomOf(ps, i) + |PairBytes(ps[i])| <= |BufOf(ps, |ps|)|
    ensures BufOf(ps, |ps|)[RoomOf(ps, i)..RoomOf(ps, i) + |PairBytes(ps[i])|] == PairBytes(ps[i])
  {
    RoomIsLength(ps, i);
    BufOfGrows(ps, i + 1, |ps|);
    var b, a, c := BufOf(ps, |ps|), BufOf(ps, i), PairBytes(ps[i]);
    assert b[..|a| + |c|] == a + c;
    assert b[|a|..|a| + |c|] == b[..|a| + |c|][|a|..];
  }

  lemma {:induction false} OldPairIs(ps: seq<Pair>, unused: seq<u16>, i: nat)
    requires i < |ps| == |unused| && |ps| <= 0xfff_ffff && AllShortPairs(ps) && PackedSize(ps) < POSLIMIT
    ensures var v := OldPack(ps, unused); InBuf(EntriesOf(v)[i], v.buf) && OldPair(EntriesOf(v)[i], v.buf) == ps[i]
  {
    var v, p := OldPack(ps, unused), ps[i];
    OldEntryIs(ps, unused, i);
    BytesAt(ps, i);
    TwoParts(v.buf, RoomOf(ps, i), p.key, ValBytes(p));
  }

  lemma {:induction false} TwoParts(b: bytes, at: nat, x: bytes, y: bytes)
    requires at + |x + y| <= |b| && b[at..at + |x + y|] == x + y
    ensures b[at..at + |x|] == x && b[at + |x|..at + |x| + |y|] == y
  {
    var s := b[at..at + |x + y|];
    assert s[..|x|] == x && s[|x|..] == y;
    assert b[at..at + |x|] == s[..|x|];
    assert b[at + |x|..at + |x| + |y|] == s[|x|..];
  }

  /** And converting it gives the packed value of its pairs. */
  lemma {:induction false} OldPackUpgrades(ps: seq<Pair>, unused: seq<u16>, u: Stored)
    requires |unused| == |ps| <= 0xfff_ffff && AllShortPairs(ps) && PackedSize(ps) <= MAX_ALLOC && Sorted(ps)
    requires Upgraded(OldPack(ps, unused), u)
    ensures AsNew(u) == Pack(ps)
  {
    var v := OldPack(ps, unused);
    var h := AsNew(u);
    OldPackPasses(ps, unused);
    UpgradeWellFormed(v, u);
    var qs := Pairs(h);
    assert |qs| == |ps|;
    forall i | 0 <= i < |ps| ensures qs[i] == ps[i] {
      UpgradeKeepsPair(v, u, i);
      OldPairIs(ps, unused, i);
    }
    SameLists(qs, ps);
    ReadThenPack(h);
  }

  lemma {:induction false} SameLists(ps: seq<Pair>, qs: seq<Pair>)
    requires |ps| == |qs| && forall i | 0 <= i < |ps| :: ps[i] == qs[i]
    ensures ps == qs
  {
  }
}
