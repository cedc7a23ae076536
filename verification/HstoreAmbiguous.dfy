/**
 * Values that pass the tests of both hstore formats, and the choice that `hstoreUpgrade` makes
 * between them.
 */
module HstoreAmbiguous {
  import opened Options
  import opened Bytea
  import opened HstorePacked
  import opened HstoreEntries
  import opened HstoreCompat

  // ----- The test of the new format -----

  function End(ws: seq<word>, j: nat): nat
    requires j < |ws|
  {
    Decode(ws[j]).end
  }

  predicate InStep(ws: seq<word>, j: nat)
    requires 0 < j < |ws|
  {
    !Decode(ws[j]).isFirst && End(ws, j - 1) <= End(ws, j)
  }

  /** Length of the key of pair `i`; only the first pair starts at zero. */
  function NewKeyLen(ws: seq<word>, i: nat): int
    requires 2 * i < |ws|
  {
    if i == 0 then End(ws, 0) else End(ws, 2 * i) - End(ws, 2 * i - 1)
  }

  predicate KeyInStep(ws: seq<word>, i: nat)
    requires i > 0 && 2 * i < |ws|
  {
    NewKeyLen(ws, i - 1) <= NewKeyLen(ws, i) && !Decode(ws[2 * i]).isNull
  }

  /** What the test of the new format asks of the entries of a value of `varsize` bytes. */
  ghost predicate NewList(ws: seq<word>, varsize: nat) {
    && |ws| > 0 && |ws| % 2 == 0 && Decode(ws[0]).isFirst
    && SizeFor(|ws| / 2, End(ws, |ws| - 1)) <= varsize
    && (forall j: nat | 0 < j < |ws| :: InStep(ws, j))
    && (forall i: nat | i > 0 && 2 * i < |ws| :: KeyInStep(ws, i))
  }

  /**
   * `hstoreValidNewFormat`: 0 if not valid, 1 if valid with bytes to spare, 2 if exactly valid. The
   * words are as many as the count says, even if the value is too short for them.
   */
  method ValidNewFormat(v: Stored) returns (r: int)
    requires LaidOut(v) && (v.size < NEWVERSION ==> v.size <= 0xfff_ffff && |v.ws| == 2 * v.size)
    ensures r in {0, 1, 2} && (v.size >= NEWVERSION || v.size == 0 ==> r == 2)
    ensures 0 < v.size < NEWVERSION ==> (r != 0 <==> NewList(v.ws, v.varsize))
    ensures 0 < v.size < NEWVERSION && r != 0 ==>
              (r == 2 <==> SizeFor(v.size, End(v.ws, 2 * v.size - 1)) == v.varsize)
  {
    if v.size >= NEWVERSION || v.size == 0 { return 2; }
    var ws := v.ws;
    var vsize := SizeFor(v.size, End(ws, 2 * v.size - 1));
    if !Decode(ws[0]).isFirst || vsize > v.varsize { return 0; }
    for j := 1 to 2 * v.size
      invariant forall k: nat | 0 < k < j :: InStep(ws, k)
    {
      if Decode(ws[j]).isFirst || End(ws, j) < End(ws, j - 1) {
        assert !InStep(ws, j);
        return 0;
      }
    }
    for i := 1 to v.size
      invariant forall k: nat | 0 < k < i :: KeyInStep(ws, k)
    {
      if NewKeyLen(ws, i) < NewKeyLen(ws, i - 1) || Decode(ws[2 * i]).isNull {
        assert !KeyInStep(ws, i);
        return 0;
      }
    }
    return if vsize != v.varsize then 1 else 2;
  }

  // ----- The choice -----

  /** A new value gets the version flag and its exact size. */
  function Flagged(v: Stored): Stored
    requires 0 < v.size && |v.ws| == 2 * v.size
  {
    var buflen := End(v.ws, 2 * v.size - 1);
    Stored((v.size + NEWVERSION) % 0x1_0000_0000, v.ws, Take(v.buf, buflen), SizeFor(v.size, buflen))
  }

  /**
   * `hstoreUpgrade`. A value that passes the test of the old format is converted, whether or
   * not it passes that of the new one.
   */
  method Upgrade(v: Stored, writable: bool) returns (r: Option<Stored>)
    requires LaidOut(v) && (v.size < NEWVERSION ==> v.size <= 0xfff_ffff && |v.ws| == 2 * v.size)
    ensures ReturnsAtOnce(v) ==> r == Some(v)
    ensures !ReturnsAtOnce(v) && OldFormat(v) ==> r.Some? && Upgraded(v, r.value)
    ensures !ReturnsAtOnce(v) && !OldFormat(v) ==>
              r == if NewList(v.ws, v.varsize) then Some(if writable then Flagged(v) else v) else None
  {
    if ReturnsAtOnce(v) { return Some(v); }
    var validNew := ValidNewFormat(v);
    var validOld := ValidOldFormat(v);
    if validOld == 0 {
      if validNew == 0 { return None; }
      return Some(if writable then Flagged(v) else v);
    }
    var u := UpgradeOld(v);
    return Some(u);
  }

  // ----- Values that pass both tests -----

  ghost predicate Ambiguous(v: Stored) {
    0 < v.size && OldFormat(v) && NewList(v.ws, v.varsize)
  }

  /**
   * The first entry of such a value has three free bits: the lowest bit of either word, of
   * which the first word's is at most the second's, and bit 30 of the first.
   */
  predicate FirstEntry(w0: word, w1: word) {
    w1 <= 1 && (w0 - ISFIRST <= w1 || 0 <= w0 - ISFIRST - ISNULL <= w1) && w0 >= ISFIRST
  }

  lemma {:induction false} FirstWords(w0: word, w1: word)
    requires Decode(w0).isFirst && w1 / 2 == 0 && Decode(w0).end <= Decode(w1).end
    ensures FirstEntry(w0, w1)
  {
    EncodeDecode(w0);
  }

  lemma {:induction false} AmbiguousFirst(v: Stored)
    requires Ambiguous(v)
    ensures FirstEntry(v.ws[0], v.ws[1])
    ensures EntriesOf(v)[0].keylen <= 1 && EntriesOf(v)[0].vallen in {32768, 49152}
  {
    OldEntriesAt(v.ws, v.size, 0);
    OldFits(EntriesOf(v), v.varsize, 0);
    assert InStep(v.ws, 1);
    FirstWords(v.ws[0], v.ws[1]);
  }

  /**
   * Entry `i` behind the first: its second word is twice where its bytes start in the old format,
   * plus one for a null; its first word lies between its neighbours as positions go and has no
   * flags; and key lengths do not fall in either format.
   */
  predicate Rung(ws: seq<word>, es: seq<OldEntry>, i: nat)
    requires 0 < i < |es| && 2 * |es| <= |ws|
  {
    && ws[2 * i + 1] == 2 * Total(es, i) + (if es[i].isNull then 1 else 0) && ws[2 * i + 1] < ISFIRST
    && ws[2 * i] < ISNULL && End(ws, 2 * i - 1) <= ws[2 * i] <= End(ws, 2 * i + 1)
    && KeyGrows(es, i) && NewKeyLen(ws, i - 1) <= NewKeyLen(ws, i)
  }

  lemma {:induction false} RungIff(ws: seq<word>, es: seq<OldEntry>, i: nat)
    requires 0 < i < |es| && 2 * |es| <= |ws| && es[i] == OldAt(ws, i)
    ensures Rung(ws, es, i) <==>
              && Contiguous(es, i) && KeyGrows(es, i)
              && InStep(ws, 2 * i) && InStep(ws, 2 * i + 1) && KeyInStep(ws, i)
  {
    FlagFree(ws[2 * i]);
    FlagFree(ws[2 * i + 1]);
  }

  lemma {:induction false} FlagFree(w: word)
    ensures !Decode(w).isFirst <==> w < ISFIRST
    ensures !Decode(w).isFirst && !Decode(w).isNull <==> w < ISNULL
    ensures w < ISNULL ==> Decode(w).end == w
  {
  }

  /** The bytes that both readings of the entries take up at most. */
  function BothNeed(v: Stored): nat
    requires 0 < v.size && |v.ws| == 2 * v.size
  {
    var asOld, asNew := Total(EntriesOf(v), v.size), End(v.ws, 2 * v.size - 1);
    SizeFor(v.size, if asOld < asNew then asNew else asOld)
  }

  /**
   * A value passes both tests exactly if its first entry is one of those, every other entry is a
   * rung of the ladder above it, and both readings fit.
   */
  lemma {:induction false} AmbiguousIff(v: Stored)
    requires 0 < v.size <= 0xfff_ffff && |v.ws| == 2 * v.size
    ensures Ambiguous(v) <==>
              && FirstEntry(v.ws[0], v.ws[1]) && BothNeed(v) <= v.varsize
              && forall i: nat | 0 < i < v.size :: Rung(v.ws, EntriesOf(v), i)
  {
    var ws, es := v.ws, EntriesOf(v);
    forall i: nat | i < v.size ensures es[i] == OldAt(ws, i) { OldEntriesAt(ws, v.size, i); }
    if Ambiguous(v) {
      AmbiguousFirst(v);
      forall i: nat | 0 < i < v.size ensures Rung(ws, es, i) {
        RungIff(ws, es, i);
        assert Contiguous(es, i) && InStep(ws, 2 * i) && InStep(ws, 2 * i + 1);
      }
    }
    if FirstEntry(ws[0], ws[1]) && BothNeed(v) <= v.varsize && forall i: nat | 0 < i < v.size :: Rung(ws, es, i) {
      LadderIsOld(v);
      LadderIsNew(v);
    }
  }

  lemma {:induction false} LadderIsOld(v: Stored)
    requires 0 < v.size <= 0xfff_ffff && |v.ws| == 2 * v.size
    requires FirstEntry(v.ws[0], v.ws[1]) && BothNeed(v) <= v.varsize
    requires forall i: nat | 0 < i < v.size :: Rung(v.ws, EntriesOf(v), i)
    ensures OldFormat(v)
  {
    var ws, es := v.ws, EntriesOf(v);
    OldEntriesAt(ws, v.size, 0);
    assert Contiguous(es, 0);
    forall i: nat | 0 < i < v.size ensures Contiguous(es, i) && KeyGrows(es, i) {
      OldEntriesAt(ws, v.size, i);
      assert Rung(ws, es, i);
      RungIff(ws, es, i);
    }
  }

  lemma {:induction false} LadderIsNew(v: Stored)
    requires 0 < v.size && |v.ws| == 2 * v.size && FirstEntry(v.ws[0], v.ws[1]) && BothNeed(v) <= v.varsize
    requires forall i: nat | 0 < i < v.size :: Rung(v.ws, EntriesOf(v), i)
    ensures NewList(v.ws, v.varsize)
  {
    var ws, es := v.ws, EntriesOf(v);
    FirstSteps(ws[0], ws[1]);
    forall j: nat | 0 < j < |ws| ensures InStep(ws, j) {
      if j > 1 {
        OldEntriesAt(ws, v.size, j / 2);
        assert Rung(ws, es, j / 2);
        RungIff(ws, es, j / 2);
      }
    }
    forall i: nat | i > 0 && 2 * i < |ws| ensures KeyInStep(ws, i) {
      OldEntriesAt(ws, v.size, i);
      assert Rung(ws, es, i);
      RungIff(ws, es, i);
    }
  }

  lemma {:induction false} FirstSteps(w0: word, w1: word)
    requires FirstEntry(w0, w1)
    ensures Decode(w0).isFirst && !Decode(w1).isFirst && Decode(w0).end <= Decode(w1).end
  {
  }

  /** The bytes that a value of one entry needs to pass both tests. */
  function SingleNeeds(w0: word, w1: word): nat { if w1 == 1 then 17 else 16 + w0 / 65536 }

  /** A value of one entry passes both tests exactly if its first entry is such and its bytes are enough. */
  lemma {:induction false} SingleAmbiguousIff(v: Stored)
    requires v.size == 1 && |v.ws| == 2
    ensures Ambiguous(v) <==> FirstEntry(v.ws[0], v.ws[1]) && SingleNeeds(v.ws[0], v.ws[1]) <= v.varsize
  {
    var es, w0, w1 := EntriesOf(v), v.ws[0], v.ws[1];
    OldEntriesAt(v.ws, 1, 0);
    assert Total(es, 1) == Total(es, 0) + EntryLen(es[0]);
    if Ambiguous(v) {
      AmbiguousFirst(v);
    } else if FirstEntry(w0, w1) && SingleNeeds(w0, w1) <= v.varsize {
      assert Contiguous(es, 0);
      assert InStep(v.ws, 1);
    }
  }

  /** One that gets past the short cut has, as a new value, at least 32751 bytes to spare. */
  lemma {:induction false} SingleHasPadding(v: Stored)
    requires v.size == 1 && Ambiguous(v) && !ReturnsAtOnce(v)
    ensures SizeFor(1, End(v.ws, 1)) + 32751 <= v.varsize
  {
    AmbiguousFirst(v);
  }

  /**
   * With two entries no byte need be spare in either format: an empty key with a value of 32768
   * bytes and a key of 32768 bytes with an empty value are, as a new value, an empty key with an
   * empty value and the first half of the bytes as the key of the second half.
   */
  lemma {:induction false} ExactlyBoth(buf: bytes, v: Stored)
    requires |buf| == 65536 && v == Stored(2, [ISFIRST, 0, 32768, 65536], buf, SizeFor(2, 65536))
    ensures LaidOut(v) && Ambiguous(v) && !ReturnsAtOnce(v)
    ensures SizeFor(2, Total(EntriesOf(v), 2)) == v.varsize && SizeFor(2, End(v.ws, 3)) == v.varsize
  {
    var es, ws := EntriesOf(v), v.ws;
    OldEntriesAt(ws, 2, 0);
    OldEntriesAt(ws, 2, 1);
    assert es[0] == OldEntry(0, 32768, false, 0) && es[1] == OldEntry(32768, 0, false, 32768);
    assert Total(es, 1) == Total(es, 0) + EntryLen(es[0]);
    assert Contiguous(es, 0) && Contiguous(es, 1) && KeyGrows(es, 1);
    assert InStep(ws, 1) && InStep(ws, 2) && InStep(ws, 3) && KeyInStep(ws, 1);
  }
}
