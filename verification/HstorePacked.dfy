/**
 * The stored form of an hstore: for each pair two entries with end positions and flags,
 * then one buffer with all keys and values.
 */
module HstorePacked {
  import opened Machine
  import opened Options
  import opened Bytea
  import opened HstorePairs

  /** Positions have 30 bits. */
  const POSLIMIT := 0x4000_0000

  /** What one 32-bit entry says: where its bytes end, and two flags. */
  datatype Entry = Entry(end: nat, isNull: bool, isFirst: bool)

  /** The entries of one pair. */
  datatype Slot = Slot(key: Entry, val: Entry)

  datatype HStore = HStore(slots: seq<Slot>, buf: bytes)

  function Count(h: HStore): nat { |h.slots| }

  /** Bytes taken by header, entries and buffer. */
  function SizeFor(count: nat, bytes: nat): nat { 8 + 8 * count + bytes }

  function Size(h: HStore): nat { SizeFor(|h.slots|, |h.buf|) }

  /** Where the entry before pair `i` ends. */
  function Before(slots: seq<Slot>, i: nat): nat
    requires i <= |slots|
  {
    if i == 0 then 0 else slots[i - 1].val.end
  }

  /** Start and length of an entry, given the end of the one before it. */
  function Off(e: Entry, before: nat): nat { if e.isFirst then 0 else before }

  function Len(e: Entry, before: nat): int { if e.isFirst then e.end else e.end - before }

  /** Only the first entry is flagged first; end positions do not decrease and stay in the buffer. */
  predicate WellPlaced(slots: seq<Slot>, size: nat, i: nat)
    requires i < |slots|
  {
    && slots[i].key.isFirst == (i == 0) && !slots[i].val.isFirst
    && Before(slots, i) <= slots[i].key.end <= slots[i].val.end <= size
  }

  ghost predicate WellFormed(h: HStore) {
    forall i: nat | i < |h.slots| :: WellPlaced(h.slots, |h.buf|, i)
  }

  function KeyAt(h: HStore, i: nat): bytes
    requires i < Count(h) && WellPlaced(h.slots, |h.buf|, i)
  {
    var e, before := h.slots[i].key, Before(h.slots, i);
    h.buf[Off(e, before)..Off(e, before) + Len(e, before)]
  }

  function ValAt(h: HStore, i: nat): Option<bytes>
    requires i < Count(h) && WellPlaced(h.slots, |h.buf|, i)
  {
    var e, before := h.slots[i].val, h.slots[i].key.end;
    if e.isNull then None else Some(h.buf[Off(e, before)..Off(e, before) + Len(e, before)])
  }

  function PairAt(h: HStore, i: nat): Pair
    requires i < Count(h) && WellPlaced(h.slots, |h.buf|, i)
  {
    Pair(KeyAt(h, i), ValAt(h, i))
  }

  /** The first `n` pairs. */
  ghost function FirstPairs(h: HStore, n: nat): (ps: seq<Pair>)
    requires WellFormed(h) && n <= Count(h)
    ensures |ps| == n
  {
    if n == 0 then [] else FirstPairs(h, n - 1) + [PairAt(h, n - 1)]
  }

  ghost function Pairs(h: HStore): (ps: seq<Pair>)
    requires WellFormed(h)
    ensures |ps| == Count(h)
  {
    FirstPairs(h, Count(h))
  }

  lemma {:induction false} FirstPairsAt(h: HStore, n: nat, i: nat)
    requires WellFormed(h) && i < n <= Count(h)
    ensures WellPlaced(h.slots, |h.buf|, i) && FirstPairs(h, n)[i] == PairAt(h, i)
  {
    if i < n - 1 { FirstPairsAt(h, n - 1, i); }
  }

  lemma {:induction false} PairsAt(h: HStore, i: nat)
    requires WellFormed(h) && i < Count(h)
    ensures WellPlaced(h.slots, |h.buf|, i) && Pairs(h)[i] == PairAt(h, i)
  {
    FirstPairsAt(h, Count(h), i);
  }

  /** Keys are never null, and a null value has no bytes. */
  predicate Tidy(s: Slot) { !s.key.isNull && (s.val.isNull ==> s.val.end == s.key.end) }

  ghost predicate InOrder(h: HStore) { WellFormed(h) && Sorted(Pairs(h)) }

  /** Canonical: well-formed, keys strictly increasing, tidy, nothing behind the last entry. */
  ghost predicate Canonical(h: HStore) {
    && InOrder(h) && Size(h) <= MAX_ALLOC
    && (forall i: nat | i < |h.slots| :: Tidy(h.slots[i]))
    && |h.buf| == Before(h.slots, |h.slots|)
  }

  // ----- Packing a list of pairs -----

  function ValBytes(p: Pair): bytes { if p.val.None? then [] else p.val.value }

  function PairBytes(p: Pair): bytes { p.key + ValBytes(p) }

  /** All keys and values of the first `n` pairs, one after the other. */
  function BufOf(ps: seq<Pair>, n: nat): bytes
    requires n <= |ps|
  {
    if n == 0 then [] else BufOf(ps, n - 1) + PairBytes(ps[n - 1])
  }

  /** The entries of a pair whose bytes start at `at`. */
  function SlotFor(p: Pair, at: nat, first: bool): Slot {
    Slot(Entry(at + |p.key|, false, first), Entry(at + |PairBytes(p)|, p.val.None?, false))
  }

  /** The entries of the first `n` pairs. */
  function SlotsOf(ps: seq<Pair>, n: nat): (slots: seq<Slot>)
    requires n <= |ps|
    ensures |slots| == n
  {
    if n == 0 then [] else SlotsOf(ps, n - 1) + [SlotFor(ps[n - 1], |BufOf(ps, n - 1)|, n == 1)]
  }

  function Pack(ps: seq<Pair>): HStore { HStore(SlotsOf(ps, |ps|), BufOf(ps, |ps|)) }

  function PackedSize(ps: seq<Pair>): nat { SizeFor(|ps|, |BufOf(ps, |ps|)|) }

  /** The number of bytes of the first `n` pairs. */
  function RoomOf(ps: seq<Pair>, n: nat): nat
    requires n <= |ps|
  {
    if n == 0 then 0 else RoomOf(ps, n - 1) + |PairBytes(ps[n - 1])|
  }

  lemma {:induction false} RoomIsLength(ps: seq<Pair>, n: nat)
    requires n <= |ps|
    ensures |BufOf(ps, n)| == RoomOf(ps, n)
  {
    if n > 0 { RoomIsLength(ps, n - 1); }
  }

  lemma {:induction false} RoomGrows(ps: seq<Pair>, m: nat, n: nat)
    requires m <= n <= |ps|
    ensures RoomOf(ps, m) <= RoomOf(ps, n)
  {
    if m < n { RoomGrows(ps, m, n - 1); }
  }

  lemma {:induction false} RoomAppend(ps: seq<Pair>, p: Pair, n: nat)
    requires n <= |ps|
    ensures RoomOf(ps + [p], n) == RoomOf(ps, n)
  {
    if n > 0 { RoomAppend(ps, p, n - 1); }
  }

  lemma {:induction false} BufOfGrows(ps: seq<Pair>, m: nat, n: nat)
    requires m <= n <= |ps|
    ensures BufOf(ps, m) <= BufOf(ps, n)
  {
    if m < n { BufOfGrows(ps, m, n - 1); }
  }

  lemma {:induction false} SlotsOfAt(ps: seq<Pair>, n: nat, i: nat)
    requires i < n <= |ps|
    ensures SlotsOf(ps, n)[i] == SlotFor(ps[i], |BufOf(ps, i)|, i == 0)
  {
    if i < n - 1 { SlotsOfAt(ps, n - 1, i); }
  }

  lemma {:induction false} BufOfPrefix(ps: seq<Pair>, qs: seq<Pair>, n: nat)
    requires n <= |ps| && n <= |qs| && ps[..n] == qs[..n]
    ensures BufOf(ps, n) == BufOf(qs, n) && SlotsOf(ps, n) == SlotsOf(qs, n)
  {
    if n > 0 {
      assert ps[n - 1] == ps[..n][n - 1] == qs[..n][n - 1] == qs[n - 1];
      assert ps[..n - 1] == ps[..n][..n - 1] == qs[..n][..n - 1] == qs[..n - 1];
      BufOfPrefix(ps, qs, n - 1);
    }
  }

  lemma {:induction false} PackBefore(ps: seq<Pair>, i: nat)
    requires i <= |ps|
    ensures Before(Pack(ps).slots, i) == |BufOf(ps, i)|
  {
    if i > 0 { SlotsOfAt(ps, |ps|, i - 1); }
  }

  lemma {:induction false} PackPlaced(ps: seq<Pair>, i: nat)
    requires i < |ps|
    ensures WellPlaced(Pack(ps).slots, |Pack(ps).buf|, i) && Tidy(Pack(ps).slots[i])
  {
    PackBefore(ps, i);
    SlotsOfAt(ps, |ps|, i);
    BufOfGrows(ps, i + 1, |ps|);
  }

  /** Key and value of pair `i` are found at its place in the buffer. */
  lemma {:induction false} BufHolds(ps: seq<Pair>, i: nat)
    requires i < |ps|
    ensures var at := |BufOf(ps, i)|; var buf := BufOf(ps, |ps|);
            && at + |PairBytes(ps[i])| <= |buf|
            && buf[at..at + |ps[i].key|] == ps[i].key
            && buf[at + |ps[i].key|..at + |PairBytes(ps[i])|] == ValBytes(ps[i])
  {
    BufOfGrows(ps, i + 1, |ps|);
    Inside(BufOf(ps, |ps|), BufOf(ps, i), ps[i].key, ValBytes(ps[i]));
  }

  lemma {:induction false} Inside(buf: bytes, a: bytes, b: bytes, c: bytes)
    requires a + (b + c) <= buf
    ensures buf[|a|..|a| + |b|] == b && buf[|a| + |b|..|a| + |b + c|] == c
  {
    assert (a + (b + c))[|a|..|a| + |b|] == b;
    assert (a + (b + c))[|a| + |b|..|a| + |b + c|] == c;
  }

  lemma {:induction false} PackPairAt(ps: seq<Pair>, i: nat)
    requires i < |ps|
    ensures WellPlaced(Pack(ps).slots, |Pack(ps).buf|, i) && PairAt(Pack(ps), i) == ps[i]
  {
    PackPlaced(ps, i);
    PackBefore(ps, i);
    SlotsOfAt(ps, |ps|, i);
    BufHolds(ps, i);
  }

  /** Packing and reading back gives the pairs; sorted pairs give a canonical value. */
  lemma {:induction false} PackThenRead(ps: seq<Pair>)
    ensures WellFormed(Pack(ps)) && Pairs(Pack(ps)) == ps
    ensures Sorted(ps) && PackedSize(ps) <= MAX_ALLOC ==> Canonical(Pack(ps))
  {
    forall i: nat | i < |ps|
      ensures WellPlaced(Pack(ps).slots, |Pack(ps).buf|, i) && Tidy(Pack(ps).slots[i])
      ensures PairAt(Pack(ps), i) == ps[i]
    {
      PackPlaced(ps, i);
      PackPairAt(ps, i);
    }
    PackBefore(ps, |ps|);
    assert Pairs(Pack(ps)) == ps by {
      forall i: nat | i < |ps| ensures Pairs(Pack(ps))[i] == ps[i] { PairsAt(Pack(ps), i); }
    }
  }

  // ----- A canonical value is the packing of its pairs -----

  /** Key and value of a pair lie side by side, between the previous pair's end and its own. */
  lemma {:induction false} PairSpans(h: HStore, i: nat)
    requires i < Count(h) && WellPlaced(h.slots, |h.buf|, i) && Tidy(h.slots[i])
    ensures PairBytes(PairAt(h, i)) == h.buf[Before(h.slots, i)..h.slots[i].val.end]
    ensures h.slots[i] == SlotFor(PairAt(h, i), Before(h.slots, i), i == 0)
  {
  }

  lemma {:induction false} BeforeFits(h: HStore, n: nat)
    requires WellFormed(h) && n <= Count(h)
    ensures Before(h.slots, n) <= |h.buf|
  {
    if n > 0 { assert WellPlaced(h.slots, |h.buf|, n - 1); }
  }

  /** Slot `i` is in its place and reads as pair `i`. */
  ghost predicate Reads(h: HStore, ps: seq<Pair>, i: nat) {
    i < Count(h) && i < |ps| && WellPlaced(h.slots, |h.buf|, i) && Tidy(h.slots[i]) && ps[i] == PairAt(h, i)
  }

  lemma {:induction false} PackingOfPairs(h: HStore, ps: seq<Pair>, n: nat)
    requires |ps| == Count(h) && n <= Count(h) && forall i: nat | i < n :: Reads(h, ps, i)
    ensures Before(h.slots, n) <= |h.buf| && BufOf(ps, n) == h.buf[..Before(h.slots, n)]
    ensures SlotsOf(ps, n) == h.slots[..n]
  {
    if n > 0 {
      PackingOfPairs(h, ps, n - 1);
      var p := ps[n - 1];
      assert Reads(h, ps, n - 1);
      PairSpans(h, n - 1);
      PackStep(h.slots, h.buf, n, p, BufOf(ps, n - 1), SlotsOf(ps, n - 1));
    }
  }

  lemma {:induction false} PackStep(slots: seq<Slot>, buf: bytes, n: nat, p: Pair,
                                    bufBefore: bytes, slotsBefore: seq<Slot>)
    requires 0 < n <= |slots| && Before(slots, n - 1) <= slots[n - 1].val.end <= |buf|
    requires bufBefore == buf[..Before(slots, n - 1)] && slotsBefore == slots[..n - 1]
    requires PairBytes(p) == buf[Before(slots, n - 1)..slots[n - 1].val.end]
    requires slots[n - 1] == SlotFor(p, Before(slots, n - 1), n == 1)
    ensures bufBefore + PairBytes(p) == buf[..Before(slots, n)]
    ensures slotsBefore + [SlotFor(p, |bufBefore|, n == 1)] == slots[..n]
  {
  }

  lemma {:induction false} ReadThenPack(h: HStore)
    requires Canonical(h)
    ensures Pack(Pairs(h)) == h
  {
    forall i: nat | i < Count(h) ensures Reads(h, Pairs(h), i) {
      PairsAt(h, i);
    }
    PackingOfPairs(h, Pairs(h), Count(h));
  }

  /** The pairs determine a canonical value. */
  lemma {:induction false} PairsDetermine(g: HStore, h: HStore)
    requires Canonical(g) && Canonical(h) && Pairs(g) == Pairs(h)
    ensures g == h
  {
    ReadThenPack(g);
    ReadThenPack(h);
  }
}
