/** The split of a page of signature keys in two. */
module SignatureSplit {
  import opened Signatures

  ghost predicate AllKeys(ks: seq<Key>, bits: nat) { forall k | k in ks :: IsKey(k, bits) }

  // ----- Seeds -----

  /** Two keys are at most `waste` apart. */
  ghost predicate Within(ks: seq<Key>, x: nat, y: nat, waste: int, bits: nat)
    requires AllKeys(ks, bits)
  {
    x < |ks| && y < |ks| ==> HemDist(ks[x], ks[y], bits) <= waste
  }

  /** The loops over pairs that look for the two keys farthest apart; they leave out the last key. */
  method ChooseSeeds(ks: seq<Key>, bits: nat) returns (seed1: nat, seed2: nat)
    requires |ks| >= 2 && AllKeys(ks, bits)
    ensures seed1 < |ks| && seed2 < |ks| && seed1 != seed2
    ensures forall x: nat, y: nat | x < y < |ks| - 1 :: Within(ks, x, y, HemDist(ks[seed1], ks[seed2], bits), bits)
  {
    var waste := -1;
    seed1, seed2 := 0, 1;
    for k := 0 to |ks| - 1
      invariant seed1 < |ks| && seed2 < |ks| && seed1 != seed2
      invariant waste == -1 || waste == HemDist(ks[seed1], ks[seed2], bits)
      invariant forall x: nat, y: nat | x < k && x < y < |ks| - 1 :: Within(ks, x, y, waste, bits)
    {
      ghost var w := waste;
      seed1, seed2, waste := FarthestFrom(ks, bits, k, seed1, seed2, waste);
      forall x: nat, y: nat | x < k && x < y < |ks| - 1 ensures Within(ks, x, y, waste, bits) {
        assert Within(ks, x, y, w, bits);
      }
    }
    forall x: nat, y: nat | x < y < |ks| - 1
      ensures Within(ks, x, y, HemDist(ks[seed1], ks[seed2], bits), bits)
    {
      assert Within(ks, x, y, waste, bits);
    }
  }

  /** The inner loop: the keys behind key `k`. */
  method FarthestFrom(ks: seq<Key>, bits: nat, k: nat, seed1: nat, seed2: nat, waste: int)
    returns (s1: nat, s2: nat, w: int)
    requires AllKeys(ks, bits) && k < |ks| - 1 && seed1 < |ks| && seed2 < |ks| && seed1 != seed2
    requires waste == -1 || waste == HemDist(ks[seed1], ks[seed2], bits)
    ensures s1 < |ks| && s2 < |ks| && s1 != s2 && waste <= w && (w == -1 || w == HemDist(ks[s1], ks[s2], bits))
    ensures forall y: nat | k < y < |ks| - 1 :: Within(ks, k, y, w, bits)
  {
    s1, s2, w := seed1, seed2, waste;
    for j := k + 1 to |ks| - 1
      invariant s1 < |ks| && s2 < |ks| && s1 != s2 && waste <= w && (w == -1 || w == HemDist(ks[s1], ks[s2], bits))
      invariant forall y: nat | k < y < j :: Within(ks, k, y, w, bits)
    {
      var d := HemDist(ks[k], ks[j], bits);
      if d > w {
        forall y: nat | k < y < j ensures Within(ks, k, y, d, bits) { assert Within(ks, k, y, w, bits); }
        w, s1, s2 := d, k, j;
      }
    }
  }

  // ----- The order of placement -----

  datatype Cost = Cost(pos: nat, cost: int)

  function Places(cv: seq<Cost>, n: nat): multiset<nat>
    requires n <= |cv|
  {
    if n == 0 then multiset{} else Places(cv, n - 1) + multiset{cv[n - 1].pos}
  }

  /** All places below `n`, each once. */
  function Upto(n: nat): multiset<nat> { if n == 0 then multiset{} else Upto(n - 1) + multiset{n - 1} }

  lemma {:induction false} UptoCounts(n: nat, j: nat)
    ensures Upto(n)[j] == if j < n then 1 else 0
  {
    if n > 0 { UptoCounts(n - 1, j); }
  }

  ghost predicate Cheap(cv: seq<Cost>) { forall i, j | 0 <= i < j < |cv| :: cv[i].cost <= cv[j].cost }

  lemma {:induction false} PlacesPrefix(a: seq<Cost>, b: seq<Cost>, n: nat)
    requires n <= |a|
    ensures Places(a + b, n) == Places(a, n)
  {
    if n > 0 { PlacesPrefix(a, b, n - 1); }
  }

  lemma {:induction false} PlacesConcat(a: seq<Cost>, b: seq<Cost>, n: nat)
    requires n <= |b|
    ensures Places(a + b, |a| + n) == Places(a, |a|) + Places(b, n)
  {
    if n > 0 {
      PlacesConcat(a, b, n - 1);
    } else {
      PlacesPrefix(a, b, |a|);
    }
  }

  lemma {:induction false} PlacesInsert(a: seq<Cost>, c: Cost, b: seq<Cost>)
    ensures Places(a + ([c] + b), |a + ([c] + b)|) == Places(a + b, |a + b|) + multiset{c.pos}
  {
    PlacesConcat(a, [c] + b, 1 + |b|);
    PlacesConcat([c], b, |b|);
    PlacesConcat(a, b, |b|);
    PlacesOne(c);
    MoveOver(Places(a, |a|), multiset{c.pos}, Places(b, |b|));
  }

  lemma {:induction false} PlacesOne(c: Cost)
    ensures Places([c], 1) == multiset{c.pos}
  {
    assert Places([c], 1) == Places([c], 0) + multiset{c.pos};
  }

  lemma {:induction false} MoveOver(x: multiset<nat>, m: multiset<nat>, y: multiset<nat>)
    ensures x + (m + y) == x + y + m
  {
  }

  /** Where a cost goes, so that the order is kept. */
  method FindPlace(cv: seq<Cost>, c: Cost) returns (p: nat)
    requires Cheap(cv)
    ensures p <= |cv|
    ensures (forall i | 0 <= i < p :: cv[i].cost <= c.cost) && (forall i | p <= i < |cv| :: c.cost < cv[i].cost)
  {
    p := 0;
    while p < |cv| && cv[p].cost <= c.cost
      invariant p <= |cv| && forall i | 0 <= i < p :: cv[i].cost <= c.cost
    {
      p := p + 1;
    }
  }

  lemma {:induction false} CheapInsert(a: seq<Cost>, c: Cost, b: seq<Cost>)
    requires Cheap(a + b)
    requires (forall i | 0 <= i < |a| :: a[i].cost <= c.cost) && (forall i | 0 <= i < |b| :: c.cost < b[i].cost)
    ensures Cheap(a + ([c] + b))
  {
    var s, r := a + b, a + ([c] + b);
    forall i, j | 0 <= i < j < |r| ensures r[i].cost <= r[j].cost {
      var x, y := if i <= |a| then i else i - 1, if j <= |a| then j else j - 1;
      assert i != |a| ==> r[i] == s[x];
      assert j != |a| ==> r[j] == s[y];
    }
  }

  /** Insertion of one cost, as part of a stand-in for qsort. */
  method InsertCost(cv: seq<Cost>, c: Cost) returns (r: seq<Cost>)
    requires Cheap(cv)
    ensures Cheap(r) && |r| == |cv| + 1 && Places(r, |r|) == Places(cv, |cv|) + multiset{c.pos}
    ensures forall x | x in r :: x == c || x in cv
  {
    var p := FindPlace(cv, c);
    ghost var a, b := cv[..p], cv[p..];
    assert cv == a + b;
    PlacesInsert(a, c, b);
    CheapInsert(a, c, b);
    r := cv[..p] + ([c] + cv[p..]);
  }

  /** How much closer a key is to one seed than to the other. */
  predicate IsCost(c: Cost, ks: seq<Key>, l: Key, r: Key, bits: nat)
    requires IsKey(l, bits) && IsKey(r, bits)
  {
    && c.pos < |ks| && IsKey(ks[c.pos], bits)
    && var d := HemDist(l, ks[c.pos], bits) - HemDist(r, ks[c.pos], bits); c.cost == if d < 0 then -d else d
  }

  /** The cost vector, sorted: every place once. */
  method SortedCosts(ks: seq<Key>, l: Key, r: Key, bits: nat) returns (cv: seq<Cost>)
    requires AllKeys(ks, bits) && IsKey(l, bits) && IsKey(r, bits)
    ensures |cv| == |ks| && Cheap(cv) && Places(cv, |cv|) == Upto(|ks|)
    ensures forall c | c in cv :: IsCost(c, ks, l, r, bits)
  {
    cv := [];
    for j := 0 to |ks|
      invariant |cv| == j && Cheap(cv) && Places(cv, |cv|) == Upto(j)
      invariant forall c | c in cv :: IsCost(c, ks, l, r, bits)
    {
      var c := CostAt(ks, l, r, j, bits);
      cv := InsertCost(cv, c);
    }
  }

  method CostAt(ks: seq<Key>, l: Key, r: Key, j: nat, bits: nat) returns (c: Cost)
    requires AllKeys(ks, bits) && IsKey(l, bits) && IsKey(r, bits) && j < |ks|
    ensures c.pos == j && IsCost(c, ks, l, r, bits)
  {
    assert ks[j] in ks;
    var alpha, beta := HemDist(l, ks[j], bits), HemDist(r, ks[j], bits);
    c := Cost(j, if alpha < beta then beta - alpha else alpha - beta);
  }

  // ----- The two sides -----

  /** One side of a split: its key, with the bits in an array, and the places of its entries. */
  class Side {
    const bits: nat
    const allTrue: bool
    const sign: array<bool>
    var members: seq<nat>
    ghost var counted: multiset<nat>

    ghost predicate Valid()
      reads this, sign
    {
      sign.Length == bits && counted == multiset(members)
    }

    predicate Has(i: nat)
      requires i < sign.Length
      reads sign
    {
      allTrue || sign[i]
    }

    /** A side starts with the key of its seed, but not yet with its place. */
    constructor (seed: Key, bits: nat)
      requires IsKey(seed, bits)
      ensures Valid() && this.bits == bits && members == [] && fresh(sign) && allTrue == seed.allTrue
      ensures forall i: nat | i < bits :: Has(i) <==> Bit(seed, i)
    {
      this.bits := bits;
      allTrue := seed.allTrue;
      sign := new bool[bits](i requires 0 <= i < bits => !seed.allTrue && i < |seed.sign| && seed.sign[i]);
      members, counted := [], multiset{};
    }

    function AsKey(): Key
      reads this, sign
    {
      if allTrue then Key(true, []) else Key(false, sign[..])
    }

    method Put(j: nat)
      requires Valid()
      modifies this
      ensures Valid() && members == old(members) + [j] && counted == old(counted) + multiset{j}
    {
      members, counted := members + [j], counted + multiset{j};
    }

    /** Take in the bits of a key; a key with the flag sets all of them. */
    method Absorb(k: Key)
      requires Valid() && IsKey(k, bits)
      modifies sign
      ensures forall i: nat | i < bits :: Has(i) <==> old(Has(i)) || Bit(k, i)
    {
      if allTrue || k.allTrue {
        if !allTrue {
          for n := 0 to bits
            invariant forall i: nat | i < n :: sign[i]
          {
            sign[n] := true;
          }
        }
      } else {
        OrInto(sign, k, bits);
      }
    }
  }

  /** Some key at one of the places has bit `i`. */
  ghost predicate AnyBit(ks: seq<Key>, places: multiset<nat>, i: nat) {
    exists j: nat :: j in places && j < |ks| && Bit(ks[j], i)
  }

  /** The bits of a side are those of its entries and of its seed. */
  ghost predicate Exact(side: Side, ks: seq<Key>, seed: nat)
    requires side.sign.Length == side.bits
    reads side, side.sign
  {
    forall i: nat | i < side.bits :: side.Has(i) <==> AnyBit(ks, side.counted + multiset{seed}, i)
  }

  lemma {:induction false} AnyBitMore(ks: seq<Key>, places: multiset<nat>, j: nat, i: nat)
    requires j < |ks|
    ensures AnyBit(ks, places + multiset{j}, i) <==> AnyBit(ks, places, i) || Bit(ks[j], i)
  {
    if AnyBit(ks, places, i) {
      var x: nat :| x in places && x < |ks| && Bit(ks[x], i);
      assert x in places + multiset{j};
    }
    if Bit(ks[j], i) { assert j in places + multiset{j}; }
  }

  /** The seed's own turn: it only takes its place. */
  method PlaceSeed(side: Side, ks: seq<Key>, seed: nat)
    requires side.Valid() && seed < |ks| && Exact(side, ks, seed)
    modifies side
    ensures side.Valid() && Exact(side, ks, seed)
    ensures side.members == old(side.members) + [seed] && side.counted == old(side.counted) + multiset{seed}
  {
    ghost var before := side.counted;
    side.Put(seed);
    forall i: nat | i < side.bits
      ensures AnyBit(ks, before + multiset{seed} + multiset{seed}, i) <==> AnyBit(ks, before + multiset{seed}, i)
    {
      AnyBitMore(ks, before + multiset{seed}, seed, i);
      AnyBitMore(ks, before, seed, i);
    }
  }

  /** Any other entry adds its bits. */
  method PlaceOther(side: Side, ks: seq<Key>, seed: nat, j: nat)
    requires side.Valid() && j < |ks| && IsKey(ks[j], side.bits) && Exact(side, ks, seed)
    modifies side, side.sign
    ensures side.Valid() && Exact(side, ks, seed)
    ensures side.members == old(side.members) + [j] && side.counted == old(side.counted) + multiset{j}
  {
    ghost var before := side.counted + multiset{seed};
    side.Absorb(ks[j]);
    side.Put(j);
    assert side.counted + multiset{seed} == before + multiset{j};
    forall i: nat | i < side.bits ensures side.Has(i) <==> AnyBit(ks, side.counted + multiset{seed}, i) {
      AnyBitMore(ks, before, j, i);
    }
  }

  // ----- The split -----

  /** The sides are exact, all places so far are on one or the other, and the seeds on theirs. */
  ghost predicate Dealt(l: Side, r: Side, ks: seq<Key>, seed1: nat, seed2: nat, placed: multiset<nat>)
    reads l, l.sign, r, r.sign
  {
    && l.Valid() && r.Valid() && Exact(l, ks, seed1) && Exact(r, ks, seed2)
    && l.counted + r.counted == placed
    && (seed1 in placed ==> seed1 in l.counted) && (seed2 in placed ==> seed2 in r.counted)
  }

  /** One round of the loop. `wish` is the bias that the source adds to the right-hand cost. */
  method PlaceNext(l: Side, r: Side, ks: seq<Key>, seed1: nat, seed2: nat, j: nat, wish: (nat, nat) -> real,
                   ghost placed: multiset<nat>)
    requires l != r && l.sign != r.sign && l.bits == r.bits && AllKeys(ks, l.bits)
    requires seed1 < |ks| && seed2 < |ks| && seed1 != seed2 && j < |ks|
    requires Dealt(l, r, ks, seed1, seed2, placed)
    modifies l, l.sign, r, r.sign
    ensures Dealt(l, r, ks, seed1, seed2, placed + multiset{j})
  {
    ghost var lc, rc := l.counted, r.counted;
    if j == seed1 {
      PlaceSeed(l, ks, j);
      MoveOver(lc, multiset{j}, rc);
    } else if j == seed2 {
      PlaceSeed(r, ks, j);
    } else {
      KeysAreKeys(ks, j, l, r);
      var alpha, beta := HemDist(l.AsKey(), ks[j], l.bits), HemDist(r.AsKey(), ks[j], l.bits);
      if (alpha as real) < (beta as real) + wish(|l.members|, |r.members|) {
        PlaceOther(l, ks, seed1, j);
        MoveOver(lc, multiset{j}, rc);
      } else {
        PlaceOther(r, ks, seed2, j);
      }
    }
  }

  lemma {:induction false} KeysAreKeys(ks: seq<Key>, j: nat, l: Side, r: Side)
    requires l.bits == r.bits && AllKeys(ks, l.bits) && j < |ks| && l.Valid() && r.Valid()
    ensures IsKey(ks[j], l.bits) && IsKey(l.AsKey(), l.bits) && IsKey(r.AsKey(), l.bits)
  {
    assert ks[j] in ks;
  }

  lemma {:induction false} PlacesBound(cv: seq<Cost>, n: nat, k: nat)
    requires k < n <= |cv|
    ensures cv[k].pos in Places(cv, n)
  {
    if k < n - 1 { PlacesBound(cv, n - 1, k); }
  }

  /** The loop that deals the entries to the sides in the order of their costs. */
  method DealOut(l: Side, r: Side, ks: seq<Key>, seed1: nat, seed2: nat, cv: seq<Cost>, wish: (nat, nat) -> real)
    requires l != r && l.sign != r.sign && l.bits == r.bits && AllKeys(ks, l.bits)
    requires seed1 < |ks| && seed2 < |ks| && seed1 != seed2
    requires Dealt(l, r, ks, seed1, seed2, multiset{})
    requires |cv| == |ks| && Places(cv, |cv|) == Upto(|ks|)
    modifies l, l.sign, r, r.sign
    ensures Dealt(l, r, ks, seed1, seed2, Upto(|ks|))
  {
    for k := 0 to |cv|
      invariant Dealt(l, r, ks, seed1, seed2, Places(cv, k))
    {
      PlaceInRange(cv, |ks|, k);
      PlaceNext(l, r, ks, seed1, seed2, cv[k].pos, wish, Places(cv, k));
    }
  }

  lemma {:induction false} PlaceInRange(cv: seq<Cost>, n: nat, k: nat)
    requires k < |cv| && Places(cv, |cv|) == Upto(n)
    ensures cv[k].pos < n
  {
    PlacesBound(cv, |cv|, k);
    UptoCounts(n, cv[k].pos);
  }

  /**
   * Whatever the bias, every entry goes to exactly one side, neither side
   * is empty, and the key of a side has exactly the bits of its entries.
   */
  method PickSplit(ks: seq<Key>, bits: nat, wish: (nat, nat) -> real)
    returns (left: seq<nat>, right: seq<nat>, lkey: Key, rkey: Key)
    requires |ks| >= 2 && AllKeys(ks, bits)
    ensures left != [] && right != []
    ensures forall j: nat :: (multiset(left) + multiset(right))[j] == if j < |ks| then 1 else 0
    ensures IsKey(lkey, bits) && forall i: nat | i < bits :: Bit(lkey, i) <==> AnyBit(ks, multiset(left), i)
    ensures IsKey(rkey, bits) && forall i: nat | i < bits :: Bit(rkey, i) <==> AnyBit(ks, multiset(right), i)
  {
    var seed1, seed2 := ChooseSeeds(ks, bits);
    assert ks[seed1] in ks && ks[seed2] in ks;
    var l := new Side(ks[seed1], bits);
    var r := new Side(ks[seed2], bits);
    SeedExact(l, ks, seed1);
    SeedExact(r, ks, seed2);
    var cv := SortedCosts(ks, ks[seed1], ks[seed2], bits);
    DealOut(l, r, ks, seed1, seed2, cv, wish);
    UptoCounts(|ks|, seed1);
    UptoCounts(|ks|, seed2);
    Settled(l, ks, seed1);
    Settled(r, ks, seed2);
    forall j: nat ensures Upto(|ks|)[j] == if j < |ks| then 1 else 0 { UptoCounts(|ks|, j); }
    left, right, lkey, rkey := l.members, r.members, l.AsKey(), r.AsKey();
  }

  lemma {:induction false} SeedExact(side: Side, ks: seq<Key>, seed: nat)
    requires side.Valid() && side.counted == multiset{} && seed < |ks|
    requires forall i: nat | i < side.bits :: side.Has(i) <==> Bit(ks[seed], i)
    ensures Exact(side, ks, seed)
  {
    forall i: nat | i < side.bits ensures AnyBit(ks, multiset{} + multiset{seed}, i) <==> Bit(ks[seed], i) {
      AnyBitMore(ks, multiset{}, seed, i);
    }
    assert side.counted + multiset{seed} == multiset{} + multiset{seed};
  }

  /** Once the seed has its place, the bits are those of the entries alone. */
  lemma {:induction false} Settled(side: Side, ks: seq<Key>, seed: nat)
    requires side.Valid() && seed < |ks| && Exact(side, ks, seed) && seed in side.counted
    ensures side.members != []
    ensures forall i: nat | i < side.bits :: Bit(side.AsKey(), i) <==> AnyBit(ks, multiset(side.members), i)
  {
    forall i: nat | i < side.bits ensures Bit(side.AsKey(), i) <==> AnyBit(ks, multiset(side.members), i) {
      AnyBitMore(ks, side.counted, seed, i);
      assert side.Has(i) <==> AnyBit(ks, side.counted + multiset{seed}, i);
    }
  }
}
