/**
 * Values in the old hstore format: the test that recognises them and their conversion,
 * in place, to the new format.
 */
module HstoreCompat {
  import opened Machine
  import opened Options
  import opened Bytea
  import opened HstorePairs
  import opened HstorePacked
  import opened HstoreEntries

  const NEWVERSION := 0x8000_0000

  /** The slot that two words stand for. */
  function SlotAt(ws: seq<word>, i: nat): Slot
    requires 2 * i + 1 < |ws|
  {
    Slot(Decode(ws[2 * i]), Decode(ws[2 * i + 1]))
  }

  function SlotsFrom(ws: seq<word>, n: nat): (slots: seq<Slot>)
    requires 2 * n <= |ws|
    ensures |slots| == n
  {
    if n == 0 then [] else SlotsFrom(ws, n - 1) + [SlotAt(ws, n - 1)]
  }

  lemma {:induction false} SlotsFromAt(ws: seq<word>, n: nat, i: nat)
    requires i < n && 2 * n <= |ws|
    ensures SlotsFrom(ws, n)[i] == SlotAt(ws, i)
  {
    if i < n - 1 { SlotsFromAt(ws, n - 1, i); }
  }

  // ----- Entries of the old format -----

  type u16 = x: int | 0 <= x < 65536
  type u31 = x: int | 0 <= x < 0x8000_0000

  datatype OldEntry = OldEntry(keylen: u16, vallen: u16, isNull: bool, pos: u31)

  /** Two words in the usual little-endian layout: lengths in the first, flag and position in the second. */
  function OldAt(ws: seq<word>, i: nat): OldEntry
    requires 2 * i + 1 < |ws|
  {
    var w0, w1 := ws[2 * i], ws[2 * i + 1];
    OldEntry(w0 % 65536, w0 / 65536, w1 % 2 == 1, w1 / 2)
  }

  function OldEntries(ws: seq<word>, n: nat): (es: seq<OldEntry>)
    requires 2 * n <= |ws|
    ensures |es| == n
  {
    if n == 0 then [] else OldEntries(ws, n - 1) + [OldAt(ws, n - 1)]
  }

  lemma {:induction false} OldEntriesAt(ws: seq<word>, n: nat, i: nat)
    requires i < n && 2 * n <= |ws|
    ensures OldEntries(ws, n)[i] == OldAt(ws, i)
  {
    if i < n - 1 { OldEntriesAt(ws, n - 1, i); }
  }

  /** Bytes of the value; none if it is null. */
  function ValLen(e: OldEntry): nat { if e.isNull then 0 else e.vallen }

  function EntryLen(e: OldEntry): nat { e.keylen + ValLen(e) }

  /** The bytes of the first `n` entries. */
  function Total(es: seq<OldEntry>, n: nat): nat
    requires n <= |es|
  {
    if n == 0 then 0 else Total(es, n - 1) + EntryLen(es[n - 1])
  }

  lemma {:induction false} TotalGrows(es: seq<OldEntry>, m: nat, n: nat)
    requires m <= n <= |es|
    ensures Total(es, m) <= Total(es, n)
  {
    if m < n { TotalGrows(es, m, n - 1); }
  }

  /** Entry `i` starts where the one before it ends. */
  predicate Contiguous(es: seq<OldEntry>, i: nat)
    requires i < |es|
  {
    es[i].pos == Total(es, i)
  }

  predicate KeyGrows(es: seq<OldEntry>, i: nat)
    requires 0 < i < |es|
  {
    es[i - 1].keylen <= es[i].keylen
  }

  /** What the old format asks of the entries of a value of `varsize` bytes. */
  ghost predicate OldList(es: seq<OldEntry>, varsize: nat) {
    && (forall i: nat | 0 < i < |es| :: KeyGrows(es, i))
    && (forall i: nat | i < |es| :: Contiguous(es, i))
    && SizeFor(|es|, Total(es, |es|)) <= varsize
  }

  /** A stored value: count field, entry words, string area, and the size that the header claims. */
  datatype Stored = Stored(size: word, ws: seq<word>, buf: bytes, varsize: nat)

  /** Header, entries and string area make up the value; values are smaller than 1 GB. */
  predicate LaidOut(v: Stored) {
    && SizeFor(0, 0) <= v.varsize < POSLIMIT
    && (SizeFor(v.size, 0) <= v.varsize ==> |v.ws| == 2 * v.size && v.varsize == SizeFor(v.size, |v.buf|))
  }

  /** The old entries of a value whose count fits. */
  function EntriesOf(v: Stored): seq<OldEntry>
    requires |v.ws| == 2 * v.size
  {
    OldEntries(v.ws, v.size)
  }

  ghost predicate OldFormat(v: Stored) {
    && v.size <= 0xfff_ffff && SizeFor(v.size, 0) <= v.varsize && |v.ws| == 2 * v.size
    && OldList(EntriesOf(v), v.varsize)
  }

  // ----- The test -----

  /** An int as the unsigned number that it is compared as. */
  function Unsigned(x: int): nat { x % 0x1_0000_0000 }

  method ReadOld(v: Stored, i: nat, ghost es: seq<OldEntry>) returns (e: OldEntry)
    requires |v.ws| == 2 * v.size && es == EntriesOf(v) && i < v.size
    ensures e == es[i]
  {
    OldEntriesAt(v.ws, v.size, i);
    e := OldAt(v.ws, i);
  }

  method KeyLengthsGrow(v: Stored, ghost es: seq<OldEntry>) returns (ok: bool)
    requires |v.ws| == 2 * v.size && es == EntriesOf(v) && v.size > 0
    ensures ok <==> forall i: nat | 0 < i < |es| :: KeyGrows(es, i)
  {
    var i: nat := 1;
    while i < v.size
      invariant 1 <= i <= v.size
      invariant forall k: nat | 0 < k < i :: KeyGrows(es, k)
    {
      var d := ReadOld(v, i - 1, es);
      var e := ReadOld(v, i, es);
      if e.keylen < d.keylen {
        assert !KeyGrows(es, i);
        return false;
      }
      i := i + 1;
    }
    return true;
  }

  /** The loop that adds up lengths in an int and compares each position with the sum so far. */
  method AddUp(v: Stored, ghost es: seq<OldEntry>) returns (ok: bool, lastpos: int)
    requires |v.ws| == 2 * v.size && es == EntriesOf(v) && v.size > 0
    ensures ok <==> forall i: nat | i < |es| :: Contiguous(es, i)
    ensures ok ==> lastpos == Wrap32(Total(es, |es|)) && Total(es, |es| - 1) < 0x8000_0000
  {
    lastpos := 0;
    var i: nat := 0;
    while i < v.size
      invariant i <= v.size && lastpos == Wrap32(Total(es, i))
      invariant i > 0 ==> Total(es, i - 1) < 0x8000_0000
      invariant forall k: nat | k < i :: Contiguous(es, k)
    {
      var e := ReadOld(v, i, es);
      if e.pos != lastpos {
        assert !Contiguous(es, i);
        return false, lastpos;
      }
      NoWrapYet(es, i);
      lastpos := Add32(lastpos, EntryLen(e));
      i := i + 1;
    }
    return true, lastpos;
  }

  /** A position that equals the wrapped sum shows that it has not wrapped. */
  lemma {:induction false} NoWrapYet(es: seq<OldEntry>, i: nat)
    requires i < |es| && 0 <= Wrap32(Total(es, i)) && (i > 0 ==> Total(es, i - 1) < 0x8000_0000)
    ensures Contiguous(es, i) <==> es[i].pos == Wrap32(Total(es, i))
    ensures Total(es, i) < 0x8000_0000
  {
  }

  /** If only the last addition may have wrapped, the test of the size still rejects a wrapped sum. */
  lemma {:induction false} WrappedIsRejected(count: nat, total: nat, varsize: nat)
    requires SizeFor(count, 0) <= varsize < POSLIMIT && total < 0x8000_0000 + 131072
    ensures Unsigned(SizeFor(count, 0) + Wrap32(total)) <= varsize <==> SizeFor(count, total) <= varsize
    ensures SizeFor(count, total) <= varsize ==> Unsigned(SizeFor(count, 0) + Wrap32(total)) == SizeFor(count, total)
  {
  }

  /** `hstoreValidOldFormat`: 0 if not valid, 1 if valid with bytes to spare, 2 if exactly valid. */
  method ValidOldFormat(v: Stored) returns (r: int)
    requires LaidOut(v)
    ensures r in {0, 1, 2} && (r != 0 <==> OldFormat(v))
    ensures OldFormat(v) && v.size > 0 ==> (r == 2 <==> SizeFor(v.size, Total(EntriesOf(v), v.size)) == v.varsize)
  {
    if v.size >= NEWVERSION { return 0; }
    if v.size == 0 { return 2; }
    if v.size > 0xfff_ffff || SizeFor(v.size, 0) > v.varsize { return 0; }
    r := ValidEntries(v, EntriesOf(v));
  }

  method ValidEntries(v: Stored, ghost es: seq<OldEntry>) returns (r: int)
    requires |v.ws| == 2 * v.size && es == EntriesOf(v) && v.size > 0
    requires SizeFor(v.size, 0) <= v.varsize < POSLIMIT
    ensures r in {0, 1, 2} && (r != 0 <==> OldList(es, v.varsize))
    ensures OldList(es, v.varsize) ==> (r == 2 <==> SizeFor(v.size, Total(es, |es|)) == v.varsize)
  {
    var first := ReadOld(v, 0, es);
    if first.pos != 0 {
      assert !Contiguous(es, 0);
      return 0;
    }
    var grows := KeyLengthsGrow(v, es);
    if !grows { return 0; }
    var ok, lastpos := AddUp(v, es);
    if !ok { return 0; }
    WrappedIsRejected(v.size, Total(es, |es|), v.varsize);
    var vsize := Unsigned(SizeFor(v.size, 0) + lastpos);
    if vsize > v.varsize { return 0; }
    return if vsize != v.varsize then 1 else 2;
  }

  // ----- The values that old entries stand for -----

  predicate InBuf(e: OldEntry, buf: bytes) { e.pos + EntryLen(e) <= |buf| }

  function OldPair(e: OldEntry, buf: bytes): Pair
    requires InBuf(e, buf)
  {
    Pair(buf[e.pos..e.pos + e.keylen],
         if e.isNull then None else Some(buf[e.pos + e.keylen..e.pos + e.keylen + e.vallen]))
  }

  lemma {:induction false} OldFits(es: seq<OldEntry>, varsize: nat, i: nat)
    requires OldList(es, varsize) && i < |es|
    ensures es[i].pos == Total(es, i) && Total(es, i + 1) == Total(es, i) + EntryLen(es[i])
    ensures Total(es, i + 1) <= Total(es, |es|) && SizeFor(|es|, Total(es, |es|)) <= varsize
  {
    assert Contiguous(es, i);
    TotalGrows(es, i + 1, |es|);
  }

  // ----- The conversion -----

  /** The slot for an old entry; positions are masked. */
  function NewSlot(e: OldEntry, first: bool): Slot {
    Slot(Entry((e.pos + e.keylen) % POSLIMIT, false, first),
         Entry((e.pos + e.keylen + ValLen(e)) % POSLIMIT, e.isNull, false))
  }

  predicate Converted(ws: seq<word>, es: seq<OldEntry>, i: nat, first: bool) {
    i < |es| && 2 * i + 1 < |ws| && SlotAt(ws, i) == NewSlot(es[i], first)
  }

  /** As `Converted`, with the very first entry flagged. */
  predicate Done(ws: seq<word>, es: seq<OldEntry>, i: nat) { Converted(ws, es, i, i == 0) }

  predicate Untouched(ws: seq<word>, es: seq<OldEntry>, i: nat) {
    i < |es| && 2 * i + 1 < |ws| && OldAt(ws, i) == es[i]
  }

  lemma {:induction false} SameWords(ws: seq<word>, was: seq<word>, i: nat)
    requires |ws| == |was| && 2 * i + 1 < |ws| && ws[2 * i] == was[2 * i] && ws[2 * i + 1] == was[2 * i + 1]
    ensures SlotAt(ws, i) == SlotAt(was, i) && OldAt(ws, i) == OldAt(was, i)
  {
  }

  /** The loop of `hstoreUpgrade`: each entry is read and its two words overwritten. */
  method ConvertEntries(entries: array<word>, count: nat, ghost es: seq<OldEntry>)
    requires entries.Length == 2 * count && |es| == count
    requires forall i: nat | i < count :: Untouched(entries[..], es, i)
    modifies entries
    ensures forall i: nat | i < count :: Converted(entries[..], es, i, false)
  {
    var i: nat := 0;
    while i < count
      invariant i <= count
      invariant forall k: nat | k < i :: Converted(entries[..], es, k, false)
      invariant forall k: nat | i <= k < count :: Untouched(entries[..], es, k)
    {
      ConvertEntry(entries, i, count, es);
      i := i + 1;
    }
  }

  method ConvertEntry(entries: array<word>, i: nat, ghost count: nat, ghost es: seq<OldEntry>)
    requires entries.Length == 2 * count && |es| == count && i < count
    requires forall k: nat | k < i :: Converted(entries[..], es, k, false)
    requires forall k: nat | i <= k < count :: Untouched(entries[..], es, k)
    modifies entries
    ensures forall k: nat | k < i + 1 :: Converted(entries[..], es, k, false)
    ensures forall k: nat | i + 1 <= k < count :: Untouched(entries[..], es, k)
  {
    ghost var before := entries[..];
    assert Untouched(before, es, i);
    OverwriteEntry(entries, i, es[i]);
    ghost var after := entries[..];
    forall k: nat | k < i + 1 ensures Converted(after, es, k, false) {
      if k < i {
        assert Converted(before, es, k, false);
        SameWords(after, before, k);
      }
    }
    forall k: nat | i + 1 <= k < count ensures Untouched(after, es, k) {
      assert Untouched(before, es, k);
      SameWords(after, before, k);
    }
  }

  method OverwriteEntry(entries: array<word>, i: nat, ghost e: OldEntry)
    requires 2 * i + 1 < entries.Length && OldAt(entries[..], i) == e
    modifies entries
    ensures SlotAt(entries[..], i) == NewSlot(e, false)
    ensures forall x | 0 <= x < entries.Length && x != 2 * i && x != 2 * i + 1 :: entries[x] == old(entries[x])
  {
    var o := OldAt(entries[..], i);
    entries[2 * i] := Encode(o.pos + o.keylen, false, false);
    entries[2 * i + 1] := Encode(o.pos + o.keylen + ValLen(o), o.isNull, false);
  }

  /** What conversion makes of an old value: new words, the version flag, the exact size. */
  ghost predicate Upgraded(v: Stored, u: Stored)
    requires |v.ws| == 2 * v.size && v.size < NEWVERSION
  {
    var es := EntriesOf(v);
    && u.size == v.size + NEWVERSION && |u.ws| == |v.ws| && Total(es, |es|) <= |v.buf|
    && u.buf == v.buf[..Total(es, |es|)] && u.varsize == SizeFor(v.size, |u.buf|)
    && (forall i: nat | i < v.size :: Done(u.ws, es, i))
  }

  /** `hstoreUpgrade` on a value found to be old. */
  method UpgradeOld(v: Stored) returns (u: Stored)
    requires LaidOut(v) && OldFormat(v)
    ensures Upgraded(v, u)
  {
    var count := v.size;
    ghost var es := EntriesOf(v);
    var entries := new word[2 * count](i requires 0 <= i < 2 * count => v.ws[i]);
    assert entries[..] == v.ws;
    forall i: nat | i < count ensures Untouched(v.ws, es, i) { OldEntriesAt(v.ws, count, i); }
    ConvertEntries(entries, count, es);
    var buflen := FlagFirst(entries, count, es, v.varsize);
    u := Stored(count + NEWVERSION, entries[..], v.buf[..buflen], SizeFor(count, buflen));
  }

  /** Flag the first entry and take the length of the string area from the last one. */
  method FlagFirst(entries: array<word>, count: nat, ghost es: seq<OldEntry>, ghost varsize: nat) returns (buflen: nat)
    requires entries.Length == 2 * count && |es| == count && OldList(es, varsize) && varsize < POSLIMIT
    requires forall i: nat | i < count :: Converted(entries[..], es, i, false)
    modifies entries
    ensures buflen == Total(es, count)
    ensures forall i: nat | i < count :: Done(entries[..], es, i)
  {
    if count == 0 { return 0; }
    ghost var before := entries[..];
    assert Converted(before, es, 0, false);
    entries[0] := Encode(Decode(entries[0]).end, Decode(entries[0]).isNull, true);
    ghost var after := entries[..];
    assert SlotAt(after, 0) == NewSlot(es[0], true);
    forall i: nat | i < count ensures Done(after, es, i) {
      if i > 0 {
        assert Converted(before, es, i, false);
        SameWords(after, before, i);
      }
    }
    buflen := Decode(entries[2 * (count - 1) + 1]).end;
    assert Done(after, es, count - 1);
    LastEnd(after, es, count, varsize);
  }

  lemma {:induction false} LastEnd(ws: seq<word>, es: seq<OldEntry>, count: nat, varsize: nat)
    requires 0 < count == |es| && |ws| == 2 * count && OldList(es, varsize) && varsize < POSLIMIT
    requires Converted(ws, es, count - 1, count == 1)
    ensures Decode(ws[2 * (count - 1) + 1]).end == Total(es, count)
  {
    NewSlotEnds(es, varsize, count - 1, count == 1);
    assert SlotAt(ws, count - 1).val == Decode(ws[2 * (count - 1) + 1]);
  }

  // ----- The conversion keeps the value -----

  /** A value in the new format, read from its words. */
  function AsNew(u: Stored): HStore
    requires NEWVERSION <= u.size && 2 * (u.size - NEWVERSION) <= |u.ws|
  {
    HStore(SlotsFrom(u.ws, u.size - NEWVERSION), u.buf)
  }

  /** The slot of a fitting entry, without the mask. */
  lemma {:induction false} NewSlotEnds(es: seq<OldEntry>, varsize: nat, i: nat, first: bool)
    requires OldList(es, varsize) && varsize < POSLIMIT && i < |es|
    ensures NewSlot(es[i], first)
         == Slot(Entry(Total(es, i) + es[i].keylen, false, first), Entry(Total(es, i + 1), es[i].isNull, false))
  {
    OldFits(es, varsize, i);
  }

  /** Slots as conversion makes them stand in place and read as the old entries did. */
  lemma {:induction false} NewSlotReads(es: seq<OldEntry>, varsize: nat, h: HStore, buf: bytes, i: nat)
    requires OldList(es, varsize) && varsize < POSLIMIT && i < |es| == |h.slots|
    requires h.slots[i] == NewSlot(es[i], i == 0) && (i > 0 ==> h.slots[i - 1] == NewSlot(es[i - 1], i == 1))
    requires Total(es, |es|) <= |buf| && h.buf == buf[..Total(es, |es|)]
    ensures WellPlaced(h.slots, |h.buf|, i) && Tidy(h.slots[i])
    ensures InBuf(es[i], buf) && PairAt(h, i) == OldPair(es[i], buf)
  {
    OldFits(es, varsize, i);
    NewSlotEnds(es, varsize, i, i == 0);
    if i > 0 { NewSlotEnds(es, varsize, i - 1, i == 1); }
    assert Before(h.slots, i) == Total(es, i);
    SameBytes(h.buf, buf, es[i].pos, es[i].pos + es[i].keylen);
    SameBytes(h.buf, buf, es[i].pos + es[i].keylen, es[i].pos + EntryLen(es[i]));
  }

  lemma {:induction false} SameBytes(a: bytes, b: bytes, lo: nat, hi: nat)
    requires a <= b && lo <= hi <= |a|
    ensures a[lo..hi] == b[lo..hi]
  {
  }

  lemma {:induction false} UpgradedSlot(v: Stored, u: Stored, i: nat)
    requires |v.ws| == 2 * v.size && v.size < NEWVERSION && Upgraded(v, u) && i < v.size
    ensures AsNew(u).slots[i] == NewSlot(EntriesOf(v)[i], i == 0)
  {
    SlotsFromAt(u.ws, v.size, i);
    assert Done(u.ws, EntriesOf(v), i);
  }

  lemma {:induction false} UpgradedPair(v: Stored, u: Stored, i: nat)
    requires OldFormat(v) && v.varsize < POSLIMIT && Upgraded(v, u) && i < v.size
    ensures WellPlaced(AsNew(u).slots, |u.buf|, i) && Tidy(AsNew(u).slots[i])
    ensures InBuf(EntriesOf(v)[i], v.buf) && PairAt(AsNew(u), i) == OldPair(EntriesOf(v)[i], v.buf)
  {
    UpgradedSlot(v, u, i);
    if i > 0 { UpgradedSlot(v, u, i - 1); }
    NewSlotReads(EntriesOf(v), v.varsize, AsNew(u), v.buf, i);
  }

  /**
   * Whatever the test accepts, the converted value is well-formed: only the first entry is
   * flagged, and ends do not decrease and stay in the buffer.
   */
  lemma {:induction false} UpgradeWellFormed(v: Stored, u: Stored)
    requires OldFormat(v) && v.varsize < POSLIMIT && Upgraded(v, u)
    ensures WellFormed(AsNew(u)) && Count(AsNew(u)) == v.size && u.varsize == Size(AsNew(u)) <= v.varsize
    ensures Sorted(Pairs(AsNew(u))) ==> Canonical(AsNew(u))
  {
    var h := AsNew(u);
    forall i: nat | i < v.size ensures WellPlaced(h.slots, |h.buf|, i) && Tidy(h.slots[i]) {
      UpgradedPair(v, u, i);
    }
    var es := EntriesOf(v);
    if v.size > 0 {
      UpgradedSlot(v, u, v.size - 1);
      NewSlotEnds(es, v.varsize, v.size - 1, v.size == 1);
    }
    assert Before(h.slots, |h.slots|) == Total(es, |es|);
  }

  /** It has the same pairs, though positions are now implied by the entry before. */
  lemma {:induction false} UpgradeKeepsPair(v: Stored, u: Stored, i: nat)
    requires OldFormat(v) && v.varsize < POSLIMIT && Upgraded(v, u) && i < v.size
    ensures WellFormed(AsNew(u)) && i < Count(AsNew(u)) && InBuf(EntriesOf(v)[i], v.buf)
    ensures Pairs(AsNew(u))[i] == OldPair(EntriesOf(v)[i], v.buf)
  {
    UpgradeWellFormed(v, u);
    PairsAt(AsNew(u), i);
    UpgradedPair(v, u, i);
  }

  // ----- The short cut in front of the test -----

  /** `hstoreUpgrade` returns at once: flagged as new, empty, or short with a first word that looks new. */
  predicate ReturnsAtOnce(v: Stored) {
    v.size >= NEWVERSION || v.size == 0 || (v.varsize < 32768 && v.ws != [] && Decode(v.ws[0]).isFirst)
  }

  /**
   * A non-empty old value is taken for a new one by the short cut exactly if it is short, its
   * first value is null and the unused length of that value is 32768 or more.
   */
  lemma {:induction false} ShortCutMistakes(v: Stored)
    requires OldFormat(v) && v.size > 0
    ensures ReturnsAtOnce(v) <==>
              v.varsize < 32768 && EntriesOf(v)[0].isNull && EntriesOf(v)[0].vallen >= 32768
  {
    OldEntriesAt(v.ws, v.size, 0);
    OldFits(EntriesOf(v), v.varsize, 0);
    HighBit(v.ws[0]);
  }

  lemma {:induction false} HighBit(w: word)
    ensures Decode(w).isFirst <==> w / 65536 >= 32768
  {
  }

  /** Such values: the empty key with a null, for any unused length of 32768 or more. */
  lemma {:induction false} ShortCutExample(v: Stored, n: u16)
    requires n >= 32768 && v == Stored(1, [65536 * n, 1], [], 16)
    ensures LaidOut(v) && OldFormat(v) && ReturnsAtOnce(v)
  {
    assert OldAt(v.ws, 0) == OldEntry(0, n, true, 0);
    OldEntriesAt(v.ws, 1, 0);
    OneEntry(EntriesOf(v), n);
    ShortCutMistakes(v);
  }

  lemma {:induction false} OneEntry(es: seq<OldEntry>, n: u16)
    requires |es| == 1 && es[0] == OldEntry(0, n, true, 0)
    ensures OldList(es, 16)
  {
    assert Total(es, 0) == 0 && Total(es, 1) == Total(es, 0) + EntryLen(es[0]);
    assert Contiguous(es, 0);
  }
}
