/** Signatures of integer arrays, and the test of an index entry against a query. */
module IntSignatures {
  import opened BoolQuery
  import opened QueryItems
  import opened Signatures
  import opened SignatureTree
  import opened SignatureRuns

  const SIGLENBIT: nat := 2016

  /** The bit of a value, hashed as an unsigned number of 32 bits. */
  function HashVal(v: int): (h: nat)
    ensures h < SIGLENBIT
  {
    v % 0x1_0000_0000 % SIGLENBIT
  }

  /** A negative number has the bit of its two's complement. */
  lemma {:induction false} BitOf(v: int)
    requires -0x8000_0000 <= v < 0x8000_0000
    ensures HashVal(v) == (if v < 0 then v + 0x1_0000_0000 else v) % SIGLENBIT
  {
    if v < 0 { assert v % 0x1_0000_0000 == v + 0x1_0000_0000; }
  }

  /** The bits of the values of an array. */
  function Hashes(a: seq<int>): (hashes: seq<nat>)
    ensures InRange(hashes, SIGLENBIT)
    ensures forall v | v in a :: HashVal(v) in hashes
    ensures forall h | h in hashes :: exists v :: v in a && HashVal(v) == h
  {
    if a == [] then [] else [HashVal(a[0])] + Hashes(a[1..])
  }

  /** The strategies served by the index, with their argument; `e` is the query that the items hold. */
  datatype Query = Overlap(a: seq<int>) | Contains(a: seq<int>) | Same(a: seq<int>) | Boolean(items: seq<Item>, e: Expr)

  ghost predicate IsQuery(q: Query) { q.Boolean? ==> Holds(q.items, q.e) }

  /** Does a row match? */
  ghost predicate Matches(q: Query, row: seq<int>) {
    match q
    case Overlap(a) => exists v :: v in a && v in row
    case Contains(a) => forall v | v in a :: v in row
    case Same(a) => Elements(a) == Elements(row)
    case Boolean(_, e) => Meaning(e, Elements(row))
  }

  // ----- The test of one entry -----

  /** `_intbig_overlap`: some value has its bit. */
  method SignOverlap(k: Key, a: seq<int>) returns (b: bool)
    ensures b <==> exists v :: v in a && Bit(k, HashVal(v))
  {
    for n := 0 to |a|
      invariant forall j | 0 <= j < n :: !Bit(k, HashVal(a[j]))
    {
      if Bit(k, HashVal(a[n])) { return true; }
    }
    return false;
  }

  /** `_intbig_contains`: every value has its bit. */
  method SignContains(k: Key, a: seq<int>) returns (b: bool)
    ensures b <==> forall v | v in a :: Bit(k, HashVal(v))
  {
    for n := 0 to |a|
      invariant forall j | 0 <= j < n :: Bit(k, HashVal(a[j]))
    {
      if !Bit(k, HashVal(a[n])) { return false; }
    }
    return true;
  }

  /** Comparison of a leaf's signature with that of the query. */
  method SignSame(k: Key, a: seq<int>) returns (b: bool)
    requires IsKey(k, SIGLENBIT) && !k.allTrue
    ensures b <==> SignsExactly(k, Hashes(a), SIGLENBIT)
  {
    var qp := Sign(Hashes(a), SIGLENBIT);
    for n := 0 to SIGLENBIT
      invariant forall i: nat | i < n :: k.sign[i] == qp[i]
    {
      if k.sign[n] != qp[n] {
        assert !(Bit(k, n) <==> n in Hashes(a));
        return false;
      }
    }
    return true;
  }

  /** The truth of the first `n` items: for a value, its bit. */
  function BitTruth(k: Key, items: seq<Item>, n: nat): (truth: seq<bool>)
    requires n <= |items|
    ensures |truth| == n
    ensures forall j | 0 <= j < n && items[j].node.NVal? :: truth[j] == Bit(k, HashVal(items[j].node.v))
  {
    if n == 0 then []
    else BitTruth(k, items, n - 1) + [items[n - 1].node.NVal? && Bit(k, HashVal(items[n - 1].node.v))]
  }

  /** `signconsistent` without calculating negations, with every check made up front. */
  method SignConsistent(k: Key, items: seq<Item>, ghost e: Expr) returns (b: bool)
    requires Holds(items, e)
    ensures Navigable(items, |items| - 1)
    ensures b <==> Execute(items, |items| - 1, false, BitTruth(k, items, |items|))
  {
    HoldsNavigable(items, e);
    var truth: seq<bool> := [];
    for i := 0 to |items|
      invariant truth == BitTruth(k, items, i)
    {
      truth := truth + [items[i].node.NVal? && Bit(k, HashVal(items[i].node.v))];
    }
    b := Execute(items, |items| - 1, false, truth);
  }

  /** What the test of an entry looks at. */
  predicate Passes(k: Key, q: Query, leaf: bool) {
    || k.allTrue
    || match q
       case Overlap(a) => exists v :: v in a && Bit(k, HashVal(v))
       case Contains(a) => forall v | v in a :: Bit(k, HashVal(v))
       case Same(a) => if leaf then SignsExactly(k, Hashes(a), SIGLENBIT) else forall v | v in a :: Bit(k, HashVal(v))
       case Boolean(items, _) =>
         && 0 < |items| && Navigable(items, |items| - 1)
         && Execute(items, |items| - 1, false, BitTruth(k, items, |items|))
  }

  /** `g_intbig_consistent`. */
  method Consistent(k: Key, q: Query, leaf: bool) returns (b: bool)
    requires IsKey(k, SIGLENBIT) && IsQuery(q)
    ensures b <==> Passes(k, q, leaf)
  {
    if k.allTrue { return true; }
    match q
    case Overlap(a) =>
      b := SignOverlap(k, a);
    case Contains(a) =>
      b := SignContains(k, a);
    case Same(a) =>
      if leaf {
        b := SignSame(k, a);
      } else {
        b := SignContains(k, a);
      }
    case Boolean(items, e) =>
      b := SignConsistent(k, items, e);
  }

  /** An entry whose key covers a matching row passes; for a leaf the key must be that of the row. */
  lemma {:induction false} MatchPasses(k: Key, q: Query, leaf: bool, row: seq<int>)
    requires IsQuery(q) && Matches(q, row)
    requires Covers(k, Hashes(row), SIGLENBIT) && (leaf ==> SignsExactly(k, Hashes(row), SIGLENBIT))
    ensures Passes(k, q, leaf)
  {
    match q
    case Overlap(_) =>
    case Contains(_) =>
    case Same(a) =>
      if leaf {
        SameHashed(a, row);
      } else {
        forall v | v in a ensures v in row { assert v in Elements(a); }
      }
    case Boolean(items, e) =>
      HoldsNavigable(items, e);
      ExecuteNeverRejects(items, |items| - 1, e, BitTruth(k, items, |items|), Elements(row));
  }

  /** Equal sets of values have equal bits. */
  lemma {:induction false} SameHashed(a: seq<int>, b: seq<int>)
    requires Elements(a) == Elements(b)
    ensures forall i: nat :: i in Hashes(a) <==> i in Hashes(b)
  {
    forall i: nat ensures i in Hashes(a) <==> i in Hashes(b) {
      HashedOther(a, b, i);
      HashedOther(b, a, i);
    }
  }

  lemma {:induction false} HashedOther(a: seq<int>, b: seq<int>, i: nat)
    requires Elements(a) == Elements(b)
    ensures i in Hashes(a) ==> i in Hashes(b)
  {
    if i in Hashes(a) {
      var v :| v in a && HashVal(v) == i;
      assert v in Elements(a);
    }
  }

  // ----- No entry passes without a reason -----

  /** Rows that an entry could stand for: all that it covers, or those with exactly its bits. */
  ghost predicate StandsFor(k: Key, leaf: bool, row: seq<int>) {
    Covers(k, Hashes(row), SIGLENBIT) && (leaf ==> SignsExactly(k, Hashes(row), SIGLENBIT))
  }

  /** A match, with negations taken as true. */
  ghost predicate LooselyMatches(q: Query, row: seq<int>) {
    if q.Boolean? then Lenient(q.e, Elements(row)) else Matches(q, row)
  }

  ghost predicate CouldMatch(k: Key, q: Query, leaf: bool) {
    exists row :: StandsFor(k, leaf, row) && LooselyMatches(q, row)
  }

  /** Each bit is that of the value of its number. */
  lemma {:induction false} OwnBit(i: nat)
    requires i < SIGLENBIT
    ensures HashVal(i) == i
  {
  }

  /** The first `n` bits of a key, as values. */
  function BitValues(k: Key, n: nat): (vs: seq<int>)
    requires n <= SIGLENBIT
    ensures forall v | v in vs :: 0 <= v < n && Bit(k, HashVal(v))
    ensures forall i: nat | i < n && Bit(k, i) :: i in vs
  {
    if n == 0 then [] else
      OwnBit(n - 1);
      BitValues(k, n - 1) + if Bit(k, n - 1) then [n - 1] else []
  }

  /** Values with their bits set, and one for every other bit, make a row that the entry stands for. */
  lemma {:induction false} RowWith(k: Key, vs: seq<int>, leaf: bool)
    requires IsKey(k, SIGLENBIT) && forall v | v in vs :: Bit(k, HashVal(v))
    ensures StandsFor(k, leaf, vs + BitValues(k, SIGLENBIT))
  {
    var row := vs + BitValues(k, SIGLENBIT);
    forall i: nat | i < SIGLENBIT ensures Bit(k, i) <==> i in Hashes(row) {
      if Bit(k, i) {
        assert i in row;
        OwnBit(i);
      }
      if i in Hashes(row) { var v :| v in row && HashVal(v) == i; }
    }
  }

  /** The values of the items whose bits are set. */
  function SetValues(k: Key, items: seq<Item>, n: nat): (vs: seq<int>)
    requires n <= |items|
    ensures forall v | v in vs :: Bit(k, HashVal(v))
    ensures forall j | 0 <= j < n && items[j].node.NVal? && Bit(k, HashVal(items[j].node.v)) :: items[j].node.v in vs
  {
    if n == 0 then []
    else SetValues(k, items, n - 1)
         + if items[n - 1].node.NVal? && Bit(k, HashVal(items[n - 1].node.v)) then [items[n - 1].node.v] else []
  }

  lemma {:induction false} BooleanReason(k: Key, items: seq<Item>, e: Expr)
    requires Holds(items, e) && Navigable(items, |items| - 1)
    requires Execute(items, |items| - 1, false, BitTruth(k, items, |items|))
    ensures var row := SetValues(k, items, |items|); Lenient(e, Elements(row))
  {
    ExecuteIsLenient(items, |items| - 1, e, BitTruth(k, items, |items|), Elements(SetValues(k, items, |items|)));
  }

  lemma {:induction false} LenientGrows(e: Expr, s: set<int>, t: set<int>)
    requires s <= t && Lenient(e, s)
    ensures Lenient(e, t)
  {
    match e
    case Val(_) =>
    case Not(_) =>
    case And(l, r) => LenientGrows(l, s, t); LenientGrows(r, s, t);
    case Or(l, r) => if Lenient(l, s) { LenientGrows(l, s, t); } else { LenientGrows(r, s, t); }
  }

  lemma {:induction false} OverlapReason(k: Key, a: seq<int>, leaf: bool) returns (row: seq<int>)
    requires IsKey(k, SIGLENBIT) && exists v :: v in a && Bit(k, HashVal(v))
    ensures StandsFor(k, leaf, row) && Matches(Overlap(a), row)
  {
    var v :| v in a && Bit(k, HashVal(v));
    row := [v] + BitValues(k, SIGLENBIT);
    RowWith(k, [v], leaf);
    assert v in row;
  }

  lemma {:induction false} SameReason(k: Key, a: seq<int>, leaf: bool)
    requires IsKey(k, SIGLENBIT) && !k.allTrue && Passes(k, Same(a), leaf)
    ensures StandsFor(k, leaf, a)
  {
    forall h | h in Hashes(a) ensures Bit(k, h) {
      if !leaf { var v :| v in a && HashVal(v) == h; }
    }
  }

  lemma {:induction false} LooseReason(k: Key, items: seq<Item>, e: Expr, leaf: bool) returns (row: seq<int>)
    requires IsKey(k, SIGLENBIT) && Holds(items, e) && Navigable(items, |items| - 1)
    requires Execute(items, |items| - 1, false, BitTruth(k, items, |items|))
    ensures StandsFor(k, leaf, row) && Lenient(e, Elements(row))
  {
    var vs := SetValues(k, items, |items|);
    BooleanReason(k, items, e);
    row := MoreValues(e, vs, BitValues(k, SIGLENBIT));
    RowWith(k, vs, leaf);
  }

  lemma {:induction false} MoreValues(e: Expr, vs: seq<int>, more: seq<int>) returns (row: seq<int>)
    requires Lenient(e, Elements(vs))
    ensures row == vs + more && Lenient(e, Elements(row))
  {
    row := vs + more;
    LenientGrows(e, Elements(vs), Elements(row));
  }

  lemma {:induction false} PassHasReason(k: Key, q: Query, leaf: bool) returns (row: seq<int>)
    requires IsKey(k, SIGLENBIT) && !k.allTrue && IsQuery(q) && Passes(k, q, leaf)
    ensures StandsFor(k, leaf, row) && LooselyMatches(q, row)
  {
    match q
    case Overlap(a) =>
      row := OverlapReason(k, a, leaf);
    case Contains(a) =>
      row := a + BitValues(k, SIGLENBIT);
      RowWith(k, a, leaf);
    case Same(a) =>
      row := a;
      SameReason(k, a, leaf);
    case Boolean(items, e) =>
      row := LooseReason(k, items, e, leaf);
  }

  lemma {:induction false} ReasonPasses(k: Key, q: Query, leaf: bool, row: seq<int>)
    requires IsQuery(q) && StandsFor(k, leaf, row) && LooselyMatches(q, row)
    ensures Passes(k, q, leaf)
  {
    if q.Boolean? {
      HoldsNavigable(q.items, q.e);
      GenerousIsLenient(q.items, |q.items| - 1, q.e, BitTruth(k, q.items, |q.items|), Elements(row));
    } else {
      MatchPasses(k, q, leaf, row);
    }
  }

  /**
   * The test is the best that signatures allow: an entry that is not full passes exactly if some row
   * that it could stand for would match, with negations taken as true.
   */
  lemma {:induction false} PassesIff(k: Key, q: Query, leaf: bool)
    requires IsKey(k, SIGLENBIT) && !k.allTrue && IsQuery(q)
    ensures Passes(k, q, leaf) <==> CouldMatch(k, q, leaf)
  {
    if Passes(k, q, leaf) { var row := PassHasReason(k, q, leaf); }
    forall row | StandsFor(k, leaf, row) && LooselyMatches(q, row) ensures Passes(k, q, leaf) {
      ReasonPasses(k, q, leaf, row);
    }
  }

  // ----- The index -----

  /** For each row the bits of its values. */
  ghost function TableOf(rows: seq<seq<int>>): (table: Table)
    ensures |table| == |rows| && forall t: nat | t < |rows| :: table[t] == Hashes(rows[t])
  {
    seq(|rows|, t requires 0 <= t < |rows| => Hashes(rows[t]))
  }

  /** `g_intbig_compress` for a new row. */
  method RowEntry(rows: seq<seq<int>>, tid: nat) returns (e: Entry)
    requires tid < |rows|
    ensures WellKeyed(e, TableOf(rows), SIGLENBIT) && e.child == Row(tid)
  {
    var k := CompressLeaf(Hashes(rows[tid]), SIGLENBIT);
    e := Entry(k, Row(tid));
  }

  ghost function Matching(q: Query, rows: seq<seq<int>>): set<nat> { set t: nat | t < |rows| && Matches(q, rows[t]) }

  function Test(q: Query): (Key, bool) -> bool { (k, leaf) => Passes(k, q, leaf) }

  lemma {:induction false} NeverRejectsMatches(q: Query, rows: seq<seq<int>>)
    requires IsQuery(q)
    ensures NeverRejects(Test(q), TableOf(rows), SIGLENBIT, Matching(q, rows))
  {
    forall tid: nat, k, leaf | tid in Matching(q, rows) && tid < |rows|
      ensures LetsThrough(Test(q), k, leaf, TableOf(rows)[tid], SIGLENBIT)
    {
      if Covers(k, Hashes(rows[tid]), SIGLENBIT) && (leaf ==> SignsExactly(k, Hashes(rows[tid]), SIGLENBIT)) {
        MatchPasses(k, q, leaf, rows[tid]);
      }
    }
  }

  /** After any run, a search through the index finds every matching row that was inserted. */
  method SearchIndex(ghost states: seq<seq<Entry>>, ghost steps: seq<Step>, es: seq<Entry>, q: Query,
                     ghost rows: seq<seq<int>>)
    returns (found: seq<nat>)
    requires IsRun(states, steps, TableOf(rows), SIGLENBIT) && es == states[|steps|] && IsQuery(q)
    ensures forall tid: nat | InsertedBefore(steps, |steps|, tid) && tid < |rows| && Matches(q, rows[tid]) ::
              tid in found
    ensures forall tid: nat | tid in found :: InsertedBefore(steps, |steps|, tid)
  {
    NeverRejectsMatches(q, rows);
    found := SearchAfterRun(states, steps, es, Test(q), TableOf(rows), SIGLENBIT, Matching(q, rows));
  }
}
