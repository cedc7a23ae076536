/** Entries of an hstore in memory: 32-bit words, stored as bytes with the low byte first. */
module HstoreEntries {
  import opened Bytea
  import opened HstorePacked

  const ISFIRST := 0x8000_0000
  const ISNULL := 0x4000_0000

  type word = x: int | 0 <= x < 0x1_0000_0000

  // ----- Words -----

  function Decode(w: word): Entry { Entry(w % POSLIMIT, w / ISNULL % 2 == 1, w / ISFIRST == 1) }

  /** A word from its parts; the position is masked. */
  function Encode(pos: nat, isNull: bool, isFirst: bool): (w: word)
    ensures Decode(w) == Entry(pos % POSLIMIT, isNull, isFirst)
  {
    pos % POSLIMIT + (if isNull then ISNULL else 0) + (if isFirst then ISFIRST else 0)
  }

  /** An entry is all that a word says. */
  lemma {:induction false} EncodeDecode(w: word)
    ensures Encode(Decode(w).end, Decode(w).isNull, Decode(w).isFirst) == w
  {
  }

  function EntryWord(e: Entry): word { Encode(e.end, e.isNull, e.isFirst) }

  // ----- Bytes -----

  function WordBytes(w: word): (b: bytes)
    ensures |b| == 4
  {
    [w % 256, w / 256 % 256, w / 65536 % 256, w / 0x100_0000]
  }

  function WordAt(mem: bytes, at: nat): word
    requires at + 4 <= |mem|
  {
    mem[at] as int + 256 * mem[at + 1] as int + 65536 * mem[at + 2] as int + 0x100_0000 * mem[at + 3] as int
  }

  lemma {:induction false} WordRoundTrip(mem: bytes, at: nat, w: word)
    requires at + 4 <= |mem| && mem[at..at + 4] == WordBytes(w)
    ensures WordAt(mem, at) == w
  {
    var b := mem[at..at + 4];
    assert b[0] == mem[at] && b[1] == mem[at + 1] && b[2] == mem[at + 2] && b[3] == mem[at + 3];
    WordSum(w);
  }

  lemma {:induction false} WordSum(w: word)
    ensures w == w % 256 + 256 * (w / 256 % 256) + 65536 * (w / 65536 % 256) + 0x100_0000 * (w / 0x100_0000)
  {
  }

  function SlotBytes(s: Slot): (b: bytes)
    ensures |b| == 8
  {
    WordBytes(EntryWord(s.key)) + WordBytes(EntryWord(s.val))
  }

  function SlotIn(mem: bytes, at: nat): Slot
    requires at + 8 <= |mem|
  {
    Slot(Decode(WordAt(mem, at)), Decode(WordAt(mem, at + 4)))
  }

  /** Positions that survive the mask. */
  predicate Storable(s: Slot) { s.key.end < POSLIMIT && s.val.end < POSLIMIT }

  lemma {:induction false} SlotRoundTrip(mem: bytes, at: nat, s: Slot)
    requires at + 8 <= |mem| && mem[at..at + 8] == SlotBytes(s) && Storable(s)
    ensures SlotIn(mem, at) == s
  {
    var b := mem[at..at + 8];
    assert mem[at..at + 4] == b[..4] == WordBytes(EntryWord(s.key));
    assert mem[at + 4..at + 8] == b[4..] == WordBytes(EntryWord(s.val));
    WordRoundTrip(mem, at, EntryWord(s.key));
    WordRoundTrip(mem, at + 4, EntryWord(s.val));
  }

  /** The bytes of the first `n` slots. */
  function Image(slots: seq<Slot>, n: nat): (b: bytes)
    requires n <= |slots|
    ensures |b| == 8 * n
  {
    if n == 0 then [] else Image(slots, n - 1) + SlotBytes(slots[n - 1])
  }

  function LoadSlots(mem: bytes, n: nat): (slots: seq<Slot>)
    requires 8 * n <= |mem|
    ensures |slots| == n
  {
    if n == 0 then [] else LoadSlots(mem, n - 1) + [SlotIn(mem, 8 * (n - 1))]
  }

  lemma {:induction false} ImagePrefix(s: seq<Slot>, t: seq<Slot>, n: nat)
    requires n <= |s| && n <= |t| && s[..n] == t[..n]
    ensures Image(s, n) == Image(t, n)
  {
    if n > 0 {
      assert s[n - 1] == s[..n][n - 1] == t[..n][n - 1] == t[n - 1];
      assert s[..n - 1] == s[..n][..n - 1] == t[..n][..n - 1] == t[..n - 1];
      ImagePrefix(s, t, n - 1);
    }
  }

  lemma {:induction false} ImageMore(slots: seq<Slot>, s: Slot)
    ensures Image(slots + [s], |slots| + 1) == Image(slots, |slots|) + SlotBytes(s)
  {
    ImagePrefix(slots + [s], slots, |slots|);
  }

  /** Slots read back from memory are the slots stored there. */
  lemma {:induction false} LoadImage(mem: bytes, slots: seq<Slot>, n: nat)
    requires n <= |slots| && 8 * n <= |mem| && mem[..8 * n] == Image(slots, n)
    requires forall i: nat | i < n :: Storable(slots[i])
    ensures LoadSlots(mem, n) == slots[..n]
  {
    if n > 0 {
      LastSlot(mem, slots, n);
      LoadImage(mem, slots, n - 1);
      LoadLast(mem, slots[n - 1], n);
      assert slots[..n] == slots[..n - 1] + [slots[n - 1]];
    }
  }

  lemma {:induction false} LoadLast(mem: bytes, s: Slot, n: nat)
    requires 0 < n && 8 * n <= |mem| && Storable(s) && mem[8 * (n - 1)..8 * (n - 1) + 8] == SlotBytes(s)
    ensures LoadSlots(mem, n) == LoadSlots(mem, n - 1) + [s]
  {
    SlotRoundTrip(mem, 8 * (n - 1), s);
  }

  lemma {:induction false} LastSlot(mem: bytes, slots: seq<Slot>, n: nat)
    requires 0 < n <= |slots| && 8 * n <= |mem| && mem[..8 * n] == Image(slots, n)
    ensures mem[..8 * (n - 1)] == Image(slots, n - 1)
    ensures mem[8 * (n - 1)..8 * (n - 1) + 8] == SlotBytes(slots[n - 1])
  {
    var a, b := Image(slots, n - 1), SlotBytes(slots[n - 1]);
    assert mem[..8 * n] == a + b;
    assert mem[..8 * (n - 1)] == (a + b)[..8 * (n - 1)] == a;
    assert mem[8 * (n - 1)..8 * n] == (a + b)[8 * (n - 1)..] == b;
  }

  // ----- The flag of the first entry -----

  function Flagged(s: Slot): Slot { s.(key := s.key.(isFirst := true)) }

  lemma {:induction false} FlaggedWord(e: Entry)
    requires !e.isFirst
    ensures EntryWord(e) < ISFIRST && EntryWord(e) + ISFIRST == EntryWord(e.(isFirst := true))
  {
  }

  /** The word with the flag set. */
  function FlagWord(w: word): word { if w < ISFIRST then w + ISFIRST else w }

  /** Flagging the first slot changes the first four bytes only. */
  lemma {:induction false} ImageFlagged(slots: seq<Slot>, n: nat)
    requires 0 < n <= |slots|
    ensures Image(slots[0 := Flagged(slots[0])], n)
         == WordBytes(EntryWord(slots[0].key.(isFirst := true))) + Image(slots, n)[4..]
  {
    var t := slots[0 := Flagged(slots[0])];
    if n == 1 {
      assert Image(t, 1) == Image(t, 0) + SlotBytes(t[0]) == SlotBytes(t[0]);
      assert Image(slots, 1) == Image(slots, 0) + SlotBytes(slots[0]) == SlotBytes(slots[0]);
    } else {
      ImageFlagged(slots, n - 1);
      assert Image(slots, n)[4..] == Image(slots, n - 1)[4..] + SlotBytes(slots[n - 1]);
    }
  }
}
