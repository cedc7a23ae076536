/**
 * Signatures: bit strings of a fixed number of bits as index keys, and their unions. The
 * signatures of intarray have 2016 bits, those of hstore 128.
 */
module Signatures {

  /** A key: all bits set, or a signature. */
  datatype Key = Key(allTrue: bool, sign: seq<bool>)

  predicate IsKey(k: Key, bits: nat) { k.allTrue || |k.sign| == bits }

  predicate Bit(k: Key, i: nat) { k.allTrue || (i < |k.sign| && k.sign[i]) }

  /** `k` has exactly the bits in the list. */
  predicate SignsExactly(k: Key, hashes: seq<nat>, bits: nat) {
    IsKey(k, bits) && forall i: nat | i < bits :: Bit(k, i) <==> i in hashes
  }

  /** Every hash is the number of a bit. */
  ghost predicate InRange(hashes: seq<nat>, bits: nat) { forall h | h in hashes :: h < bits }

  // ----- Compression -----

  /** The loop that sets the hashed bits in an empty signature. */
  method Sign(hashes: seq<nat>, bits: nat) returns (sign: array<bool>)
    requires InRange(hashes, bits)
    ensures fresh(sign) && sign.Length == bits
    ensures forall i: nat | i < bits :: sign[i] <==> i in hashes
  {
    sign := new bool[bits](_ => false);
    for n := 0 to |hashes|
      invariant forall i: nat | i < bits :: sign[i] <==> i in hashes[..n]
    {
      assert hashes[n] in hashes && hashes[..n + 1] == hashes[..n] + [hashes[n]];
      sign[hashes[n]] := true;
    }
    assert hashes[..|hashes|] == hashes;
  }

  /** The key of a row. */
  method CompressLeaf(hashes: seq<nat>, bits: nat) returns (k: Key)
    requires InRange(hashes, bits)
    ensures !k.allTrue && SignsExactly(k, hashes, bits)
  {
    var sign := Sign(hashes, bits);
    k := Key(false, sign[..]);
  }

  /** An inner key: a full signature becomes the flag. */
  method CompressInner(k: Key, bits: nat) returns (r: Key)
    requires IsKey(k, bits)
    ensures IsKey(r, bits) && (forall i: nat | i < bits :: Bit(r, i) <==> Bit(k, i))
    ensures r.allTrue <==> forall i: nat | i < bits :: Bit(k, i)
  {
    if k.allTrue { return k; }
    for n := 0 to bits
      invariant forall i: nat | i < n :: Bit(k, i)
    {
      if !k.sign[n] {
        assert !Bit(k, n);
        return k;
      }
    }
    return Key(true, []);
  }

  // ----- Unions -----

  /** Or the bits of `add` into `base`, given that neither has the flag. */
  method OrInto(base: array<bool>, add: Key, bits: nat)
    requires base.Length == bits && IsKey(add, bits) && !add.allTrue
    modifies base
    ensures forall i: nat | i < bits :: base[i] <==> old(base[i]) || Bit(add, i)
  {
    for n := 0 to bits
      invariant forall i: nat | i < n :: base[i] <==> old(base[i]) || Bit(add, i)
      invariant forall i: nat | n <= i < bits :: base[i] == old(base[i])
    {
      base[n] := base[n] || add.sign[n];
    }
  }

  /** Some of the first `n` keys has bit `i`. */
  ghost predicate SomeHas(ks: seq<Key>, n: nat, i: nat)
    requires n <= |ks|
  {
    exists j: nat :: j < n && Bit(ks[j], i)
  }

  /** Exactly the bits of all keys together. */
  method Union(ks: seq<Key>, bits: nat) returns (r: Key)
    requires forall k | k in ks :: IsKey(k, bits)
    ensures IsKey(r, bits) && forall i: nat | i < bits :: Bit(r, i) <==> SomeHas(ks, |ks|, i)
  {
    var base := new bool[bits](_ => false);
    for n := 0 to |ks|
      invariant forall i: nat | i < bits :: base[i] <==> SomeHas(ks, n, i)
    {
      assert IsKey(ks[n], bits);
      if ks[n].allTrue {
        forall i: nat | i < bits ensures SomeHas(ks, |ks|, i) { assert Bit(ks[n], i); }
        return Key(true, []);
      }
      ghost var before := base[..];
      OrInto(base, ks[n], bits);
      forall i: nat | i < bits ensures base[i] <==> SomeHas(ks, n + 1, i) {
        SomeHasMore(ks, n, i);
        assert before[i] <==> SomeHas(ks, n, i);
      }
    }
    r := Key(false, base[..]);
  }

  lemma {:induction false} SomeHasMore(ks: seq<Key>, n: nat, i: nat)
    requires n < |ks|
    ensures SomeHas(ks, n + 1, i) <==> SomeHas(ks, n, i) || Bit(ks[n], i)
  {
    if SomeHas(ks, n, i) {
      var j: nat :| j < n && Bit(ks[j], i);
    }
  }

  // ----- Distances -----

  function CountBits(s: seq<bool>, n: nat): nat
    requires n <= |s|
  {
    if n == 0 then 0 else CountBits(s, n - 1) + if s[n - 1] then 1 else 0
  }

  function CountDiffs(s: seq<bool>, t: seq<bool>, n: nat): nat
    requires n <= |s| && n <= |t|
  {
    if n == 0 then 0 else CountDiffs(s, t, n - 1) + if s[n - 1] != t[n - 1] then 1 else 0
  }

  lemma {:induction false} CountBitsBound(s: seq<bool>, n: nat)
    requires n <= |s|
    ensures CountBits(s, n) <= n
  {
    if n > 0 { CountBitsBound(s, n - 1); }
  }

  /** `hemdist`: the number of bits in which two keys differ. */
  function HemDist(a: Key, b: Key, bits: nat): (d: int)
    requires IsKey(a, bits) && IsKey(b, bits)
    ensures d >= 0
  {
    if a.allTrue && b.allTrue then 0
    else if a.allTrue then CountBitsBound(b.sign, bits); bits - CountBits(b.sign, bits)
    else if b.allTrue then CountBitsBound(a.sign, bits); bits - CountBits(a.sign, bits)
    else CountDiffs(a.sign, b.sign, bits)
  }

  /** The first `n` bits in which two keys differ, the flag read as all bits set. */
  function Distance(a: Key, b: Key, n: nat): nat {
    if n == 0 then 0 else Distance(a, b, n - 1) + if Bit(a, n - 1) != Bit(b, n - 1) then 1 else 0
  }

  lemma {:induction false} DistanceCases(a: Key, b: Key, n: nat, bits: nat)
    requires IsKey(a, bits) && IsKey(b, bits) && n <= bits
    ensures a.allTrue && b.allTrue ==> Distance(a, b, n) == 0
    ensures a.allTrue && !b.allTrue ==> Distance(a, b, n) == n - CountBits(b.sign, n)
    ensures !a.allTrue && b.allTrue ==> Distance(a, b, n) == n - CountBits(a.sign, n)
    ensures !a.allTrue && !b.allTrue ==> Distance(a, b, n) == CountDiffs(a.sign, b.sign, n)
  {
    if n > 0 { DistanceCases(a, b, n - 1, bits); }
  }

  /** The four cases of `hemdist` are one distance. */
  lemma {:induction false} HemDistIsDistance(a: Key, b: Key, bits: nat)
    requires IsKey(a, bits) && IsKey(b, bits)
    ensures HemDist(a, b, bits) == Distance(a, b, bits)
  {
    DistanceCases(a, b, bits, bits);
  }
}
