/** Signatures of hstores, and the test of an index entry against a query. */
module HstoreSignatures {
  import opened Options
  import opened Bytea
  import opened HstorePairs
  import opened HstoreOps
  import opened Signatures
  import opened SignatureTree
  import opened SignatureRuns

  const SIGLENBIT: nat := 128

  /** The checksum of a string; nothing is asked of it. */
  type Crc = bytes -> nat

  function HashVal(crc: Crc, b: bytes): (h: nat)
    ensures h < SIGLENBIT
  {
    crc(b) % 0x1_0000_0000 % SIGLENBIT
  }

  /** The bits of one pair: that of its key, and that of its value unless it is null. */
  function PairHashes(crc: Crc, p: Pair): (hashes: seq<nat>)
    ensures InRange(hashes, SIGLENBIT)
  {
    match p.val
    case None => [HashVal(crc, p.key)]
    case Some(v) => [HashVal(crc, p.key), HashVal(crc, v)]
  }

  /** The bits of the first `n` pairs. */
  function Hashes(crc: Crc, ps: seq<Pair>, n: nat): (hashes: seq<nat>)
    requires n <= |ps|
    ensures InRange(hashes, SIGLENBIT)
  {
    if n == 0 then [] else Hashes(crc, ps, n - 1) + PairHashes(crc, ps[n - 1])
  }

  lemma {:induction false} PairIsHashed(crc: Crc, ps: seq<Pair>, n: nat, i: nat)
    requires i < n <= |ps|
    ensures forall h | h in PairHashes(crc, ps[i]) :: h in Hashes(crc, ps, n)
  {
    if i < n - 1 { PairIsHashed(crc, ps, n - 1, i); }
  }

  /** The key of a row: exactly the bits of its keys and values. */
  method Compress(crc: Crc, ps: seq<Pair>) returns (k: Key)
    ensures !k.allTrue && SignsExactly(k, Hashes(crc, ps, |ps|), SIGLENBIT)
  {
    var sign := new bool[SIGLENBIT](_ => false);
    for n := 0 to |ps|
      invariant forall i: nat | i < SIGLENBIT :: sign[i] <==> i in Hashes(crc, ps, n)
    {
      sign[HashVal(crc, ps[n].key)] := true;
      if ps[n].val.Some? { sign[HashVal(crc, ps[n].val.value)] := true; }
    }
    k := Key(false, sign[..]);
  }

  // ----- Queries -----

  /** The strategies served by the index, with their argument. */
  datatype Query =
    | Contains(pairs: seq<Pair>)
    | Exists(key: bytes)
    | ExistsAll(keys: seq<Option<bytes>>)
    | ExistsAny(keys: seq<Option<bytes>>)

  ghost predicate IsQuery(q: Query) { q.Contains? ==> Sorted(q.pairs) }

  /** Does a row match? */
  ghost predicate Matches(q: Query, row: seq<Pair>) {
    match q
    case Contains(ps) => SubMap(ToMap(ps), ToMap(row))
    case Exists(key) => key in ToMap(row)
    case ExistsAll(keys) => KeysIn(keys) <= ToMap(row).Keys
    case ExistsAny(keys) => KeysIn(keys) * ToMap(row).Keys != {}
  }

  /** The bit of a string is set. */
  predicate Marked(crc: Crc, k: Key, b: bytes) { Bit(k, HashVal(crc, b)) }

  predicate PairMarked(crc: Crc, k: Key, p: Pair) {
    Marked(crc, k, p.key) && (p.val.None? || Marked(crc, k, p.val.value))
  }

  /** What the test of an entry looks at. */
  predicate Passes(crc: Crc, k: Key, q: Query) {
    || k.allTrue
    || match q
       case Contains(ps) => forall p | p in ps :: PairMarked(crc, k, p)
       case Exists(key) => Marked(crc, k, key)
       case ExistsAll(keys) => forall o | o in keys && o.Some? :: Marked(crc, k, o.value)
       case ExistsAny(keys) => exists o | o in keys && o.Some? :: Marked(crc, k, o.value)
  }

  method ContainsMarked(crc: Crc, k: Key, ps: seq<Pair>) returns (res: bool)
    ensures res <==> forall p | p in ps :: PairMarked(crc, k, p)
  {
    res := true;
    var i := 0;
    while res && i < |ps|
      invariant 0 <= i <= |ps|
      invariant res ==> forall j | 0 <= j < i :: PairMarked(crc, k, ps[j])
      invariant !res ==> exists j :: 0 <= j < |ps| && !PairMarked(crc, k, ps[j])
      decreases |ps| - i
    {
      if Marked(crc, k, ps[i].key) {
        if ps[i].val.Some? {
          if !Marked(crc, k, ps[i].val.value) { res := false; }
        }
      } else {
        res := false;
      }
      assert PairMarked(crc, k, ps[i]) == res;
      i := i + 1;
    }
  }

  method AllMarked(crc: Crc, k: Key, keys: seq<Option<bytes>>) returns (res: bool)
    ensures res <==> forall o | o in keys && o.Some? :: Marked(crc, k, o.value)
  {
    res := true;
    var i := 0;
    while res && i < |keys|
      invariant 0 <= i <= |keys|
      invariant res ==> forall j | 0 <= j < i && keys[j].Some? :: Marked(crc, k, keys[j].value)
      invariant !res ==> exists j :: 0 <= j < |keys| && keys[j].Some? && !Marked(crc, k, keys[j].value)
      decreases |keys| - i
    {
      if keys[i].Some? && !Marked(crc, k, keys[i].value) { res := false; }
      i := i + 1;
    }
  }

  method AnyMarked(crc: Crc, k: Key, keys: seq<Option<bytes>>) returns (res: bool)
    ensures res <==> exists o | o in keys && o.Some? :: Marked(crc, k, o.value)
  {
    res := false;
    var i := 0;
    while !res && i < |keys|
      invariant 0 <= i <= |keys|
      invariant !res ==> forall j | 0 <= j < i && keys[j].Some? :: !Marked(crc, k, keys[j].value)
      invariant res ==> exists o | o in keys && o.Some? :: Marked(crc, k, o.value)
      decreases |keys| - i
    {
      if keys[i].Some? && Marked(crc, k, keys[i].value) { res := true; }
      i := i + 1;
    }
  }

  /** `ghstore_consistent`. */
  method Consistent(crc: Crc, k: Key, q: Query) returns (res: bool)
    ensures res <==> Passes(crc, k, q)
  {
    if k.allTrue { return true; }
    match q
    case Contains(ps) =>
      res := ContainsMarked(crc, k, ps);
    case Exists(key) =>
      return Marked(crc, k, key);
    case ExistsAll(keys) =>
      res := AllMarked(crc, k, keys);
    case ExistsAny(keys) =>
      res := AnyMarked(crc, k, keys);
  }

  // ----- No match is passed over -----

  lemma {:induction false} PairInRow(crc: Crc, k: Key, row: seq<Pair>, p: Pair)
    requires Covers(k, Hashes(crc, row, |row|), SIGLENBIT) && p in row
    ensures PairMarked(crc, k, p)
  {
    var i: nat :| i < |row| && row[i] == p;
    PairIsHashed(crc, row, |row|, i);
    assert HashVal(crc, p.key) in PairHashes(crc, p);
    if p.val.Some? { assert HashVal(crc, p.val.value) in PairHashes(crc, p); }
  }

  lemma {:induction false} KeyInRow(crc: Crc, k: Key, row: seq<Pair>, key: bytes)
    requires Covers(k, Hashes(crc, row, |row|), SIGLENBIT) && key in ToMap(row)
    ensures Marked(crc, k, key)
  {
    LookupKeys(row, key);
    PairInRow(crc, k, row, Pair(key, Lookup(row, key).value));
  }

  /** A pair of a contained list is a pair of the row. */
  lemma {:induction false} ContainedPair(ps: seq<Pair>, row: seq<Pair>, i: nat)
    requires Sorted(ps) && i < |ps| && SubMap(ToMap(ps), ToMap(row))
    ensures ps[i] in row
  {
    PositionAt(ps, i);
    LookupIsMap(ps, ps[i].key);
    LookupIsMap(row, ps[i].key);
    LookupKeys(row, ps[i].key);
  }

  /** An entry whose key covers a matching row passes. */
  lemma {:induction false} MatchPasses(crc: Crc, k: Key, q: Query, row: seq<Pair>)
    requires IsQuery(q) && Covers(k, Hashes(crc, row, |row|), SIGLENBIT) && Matches(q, row)
    ensures Passes(crc, k, q)
  {
    match q
    case Contains(ps) =>
      forall p | p in ps ensures PairMarked(crc, k, p) {
        var i: nat :| i < |ps| && ps[i] == p;
        ContainedPair(ps, row, i);
        PairInRow(crc, k, row, p);
      }
    case Exists(key) =>
      KeyInRow(crc, k, row, key);
    case ExistsAll(keys) =>
      forall o | o in keys && o.Some? ensures Marked(crc, k, o.value) {
        assert o.value in KeysIn(keys);
        KeyInRow(crc, k, row, o.value);
      }
    case ExistsAny(keys) =>
      var key :| key in KeysIn(keys) * ToMap(row).Keys;
      KeyInRow(crc, k, row, key);
      var o :| o in keys && o.Some? && o.value == key;
  }

  // ----- No entry passes without a reason -----

  ghost predicate CouldMatch(crc: Crc, k: Key, q: Query) {
    exists row :: Covers(k, Hashes(crc, row, |row|), SIGLENBIT) && Matches(q, row)
  }

  lemma {:induction false} MarkedIsCovered(crc: Crc, k: Key, row: seq<Pair>, n: nat)
    requires n <= |row| && !k.allTrue && IsKey(k, SIGLENBIT) && forall p | p in row :: PairMarked(crc, k, p)
    ensures Covers(k, Hashes(crc, row, n), SIGLENBIT)
  {
    if n > 0 {
      assert row[n - 1] in row;
      MarkedIsCovered(crc, k, row, n - 1);
    }
  }

  /** A row with the keys and no values. */
  function KeyRow(keys: seq<Option<bytes>>): (row: seq<Pair>)
    ensures forall p | p in row :: p.val.None? && Some(p.key) in keys
    ensures forall o | o in keys && o.Some? :: Pair(o.value, None) in row
  {
    if keys == [] then []
    else (if keys[0].Some? then [Pair(keys[0].value, None)] else []) + KeyRow(keys[1..])
  }

  lemma {:induction false} InMap(row: seq<Pair>, p: Pair)
    requires p in row
    ensures p.key in ToMap(row)
  {
    assert p.key in Keys(row);
  }

  lemma {:induction false} PassHasReason(crc: Crc, k: Key, q: Query) returns (row: seq<Pair>)
    requires IsKey(k, SIGLENBIT) && !k.allTrue && IsQuery(q) && Passes(crc, k, q)
    ensures Covers(k, Hashes(crc, row, |row|), SIGLENBIT) && Matches(q, row)
  {
    match q {
      case Contains(ps) =>
        row := ps;
      case Exists(key) =>
        row := [Pair(key, None)];
        InMap(row, Pair(key, None));
      case ExistsAll(keys) =>
        row := KeyRow(keys);
        forall key | key in KeysIn(keys) ensures key in ToMap(row) {
          InMap(row, Pair(key, None));
        }
      case ExistsAny(keys) =>
        var o :| o in keys && o.Some? && Marked(crc, k, o.value);
        row := [Pair(o.value, None)];
        InMap(row, Pair(o.value, None));
        assert o.value in KeysIn(keys) * ToMap(row).Keys;
    }
    MarkedIsCovered(crc, k, row, |row|);
  }

  /**
   * The test is the best that signatures allow: an entry that is not full passes exactly if some row
   * that its key covers would match.
   */
  lemma {:induction false} PassesIff(crc: Crc, k: Key, q: Query)
    requires IsKey(k, SIGLENBIT) && !k.allTrue && IsQuery(q)
    ensures Passes(crc, k, q) <==> CouldMatch(crc, k, q)
  {
    if Passes(crc, k, q) { var row := PassHasReason(crc, k, q); }
    forall row | Covers(k, Hashes(crc, row, |row|), SIGLENBIT) && Matches(q, row) ensures Passes(crc, k, q) {
      MatchPasses(crc, k, q, row);
    }
  }

  // ----- The index -----

  /** For each row the bits of its pairs. */
  ghost function TableOf(crc: Crc, rows: seq<seq<Pair>>): (table: Table)
    ensures |table| == |rows| && forall t: nat | t < |rows| :: table[t] == Hashes(crc, rows[t], |rows[t]|)
  {
    seq(|rows|, t requires 0 <= t < |rows| => Hashes(crc, rows[t], |rows[t]|))
  }

  /** `ghstore_compress` for a new row. */
  method RowEntry(crc: Crc, rows: seq<seq<Pair>>, tid: nat) returns (e: Entry)
    requires tid < |rows|
    ensures WellKeyed(e, TableOf(crc, rows), SIGLENBIT) && e.child == Row(tid)
  {
    var k := Compress(crc, rows[tid]);
    e := Entry(k, Row(tid));
  }

  ghost function Matching(q: Query, rows: seq<seq<Pair>>): set<nat> { set t: nat | t < |rows| && Matches(q, rows[t]) }

  function Test(crc: Crc, q: Query): (Key, bool) -> bool { (k, _) => Passes(crc, k, q) }

  lemma {:induction false} NeverRejectsMatches(crc: Crc, q: Query, rows: seq<seq<Pair>>)
    requires IsQuery(q)
    ensures NeverRejects(Test(crc, q), TableOf(crc, rows), SIGLENBIT, Matching(q, rows))
  {
    forall tid: nat, k, leaf | tid in Matching(q, rows) && tid < |rows|
      ensures LetsThrough(Test(crc, q), k, leaf, TableOf(crc, rows)[tid], SIGLENBIT)
    {
      if Covers(k, Hashes(crc, rows[tid], |rows[tid]|), SIGLENBIT) { MatchPasses(crc, k, q, rows[tid]); }
    }
  }

  /** After any run, a search through the index finds every matching row that was inserted. */
  method SearchIndex(crc: Crc, ghost states: seq<seq<Entry>>, ghost steps: seq<Step>, es: seq<Entry>, q: Query,
                     ghost rows: seq<seq<Pair>>)
    returns (found: seq<nat>)
    requires IsRun(states, steps, TableOf(crc, rows), SIGLENBIT) && es == states[|steps|] && IsQuery(q)
    ensures forall tid: nat | InsertedBefore(steps, |steps|, tid) && tid < |rows| && Matches(q, rows[tid]) ::
              tid in found
    ensures forall tid: nat | tid in found :: InsertedBefore(steps, |steps|, tid)
  {
    NeverRejectsMatches(crc, q, rows);
    found := SearchAfterRun(states, steps, es, Test(crc, q), TableOf(crc, rows), SIGLENBIT, Matching(q, rows));
  }
}
