/**
 * The byte ring of the audit log: index arithmetic, the circular view, and message
 * frames of a four-byte length followed by the text.
 */
module AlogRing {
  import opened Bytea

  // ----- Index arithmetic -----

  /** The remainder of a number below twice the divisor. */
  lemma ModOnce(x: nat, n: nat)
    requires x < 2 * n
    ensures x % n == if x < n then x else x - n
  {
    var q := x / n;
    assert x == n * q + x % n;
    assert q >= 2 ==> n * q >= n * 2;
    assert q == 0 || q == 1;
  }

  /** `alog_queue_used` */
  function Used(size: nat, head: nat, tail: nat): (u: nat)
    requires head < size && tail < size
    ensures u == if tail >= head then tail - head else tail - head + size
  {
    ModOnce(tail - head + size, size);
    (tail - head + size) % size
  }

  /** `alog_queue_remain`: one byte always stays free. */
  function Remain(size: nat, head: nat, tail: nat): (u: nat)
    requires head < size && tail < size
    ensures u == size - 1 - Used(size, head, tail)
  {
    ModOnce(head - tail + size - 1, size);
    (head - tail + size - 1) % size
  }

  predicate IsEnough(size: nat, head: nat, tail: nat, n: nat)
    requires head < size && tail < size
  {
    Remain(size, head, tail) > n
  }

  predicate IsFull(size: nat, head: nat, tail: nat)
    requires head < size && tail < size
  {
    (tail + 1) % size == head
  }

  lemma FullHasNoRoom(size: nat, head: nat, tail: nat)
    requires head < size && tail < size
    ensures IsFull(size, head, tail) <==> Remain(size, head, tail) == 0
  {
    ModOnce(tail + 1, size);
  }

  /** The index `j` places past `p`, for a ring of `size` bytes. */
  function Wrap(p: nat, j: nat, size: nat): (q: nat)
    requires p < size && j <= size
    ensures q < size
    ensures q == if p + j < size then p + j else p + j - size
  {
    ModOnce(p + j, size);
    (p + j) % size
  }

  // ----- The circular view -----

  /** The `n` bytes from `p` on, around the end of the area. */
  function View(area: bytes, p: nat, n: nat): (v: bytes)
    requires p < |area| && n <= |area|
    ensures |v| == n && forall j | 0 <= j < n :: v[j] == area[Wrap(p, j, |area|)]
  {
    if p + n <= |area| then area[p..p + n] else area[p..] + area[..p + n - |area|]
  }

  /** A view and the view that starts where it ends make one view. */
  lemma ViewAppend(area: bytes, p: nat, n: nat, m: nat)
    requires p < |area| && n + m <= |area|
    ensures View(area, p, n + m) == View(area, p, n) + View(area, Wrap(p, n, |area|), m)
  {
    var q := Wrap(p, n, |area|);
    var whole, parts := View(area, p, n + m), View(area, p, n) + View(area, q, m);
    forall j | 0 <= j < n + m ensures whole[j] == parts[j] {
      if j >= n { assert Wrap(q, j - n, |area|) == Wrap(p, j, |area|); }
    }
  }

  /** Skipping bytes of a view is moving its start. */
  lemma ViewDrop(area: bytes, p: nat, n: nat, k: nat)
    requires p < |area| && k <= n <= |area|
    ensures View(area, Wrap(p, k, |area|), n - k) == View(area, p, n)[k..]
  {
    ViewAppend(area, p, k, n - k);
  }

  // ----- Frames -----

  type Msg = m: bytes | 0 < |m| < 0x8000_0000 witness [0]

  /** A length as the four bytes of a little-endian int. */
  function LenBytes(n: nat): (b: bytes)
    requires n < 0x1_0000_0000
    ensures |b| == 4
  {
    var b0: byte := n % 256;
    var b1: byte := n / 256 % 256;
    var b2: byte := n / 65536 % 256;
    var b3: byte := n / 16777216;
    [b0, b1, b2, b3]
  }

  function LenValue(b: bytes): nat
    requires |b| == 4
  {
    (b[0] as int) + 256 * (b[1] as int) + 65536 * (b[2] as int) + 16777216 * (b[3] as int)
  }

  lemma LenRoundTrip(n: nat)
    requires n < 0x1_0000_0000
    ensures LenValue(LenBytes(n)) == n
  {
  }

  function Frame(m: Msg): (f: bytes)
    ensures |f| == 4 + |m|
  {
    LenBytes(|m|) + m
  }

  function Frames(ms: seq<Msg>): bytes {
    if ms == [] then [] else Frame(ms[0]) + Frames(ms[1..])
  }

  function Payloads(ms: seq<Msg>): bytes {
    if ms == [] then [] else ms[0] + Payloads(ms[1..])
  }

  lemma {:induction false} FramesAppend(a: seq<Msg>, b: seq<Msg>)
    ensures Frames(a + b) == Frames(a) + Frames(b)
  {
    if a == [] {
      assert a + b == b;
    } else {
      assert (a + b)[1..] == a[1..] + b;
      FramesAppend(a[1..], b);
    }
  }

  lemma {:induction false} PayloadsAppend(a: seq<Msg>, b: seq<Msg>)
    ensures Payloads(a + b) == Payloads(a) + Payloads(b)
  {
    if a == [] {
      assert a + b == b;
    } else {
      assert (a + b)[1..] == a[1..] + b;
      PayloadsAppend(a[1..], b);
    }
  }

  lemma FramesOne(m: Msg)
    ensures Frames([m]) == Frame(m)
  {
    assert [m][1..] == [];
  }

  /** A sequence of frames determines its messages. */
  lemma {:induction false} FramesInjective(a: seq<Msg>, b: seq<Msg>)
    requires Frames(a) == Frames(b)
    ensures a == b
  {
    if a != [] && b != [] {
      var fa, fb := Frame(a[0]), Frame(b[0]);
      assert Frames(a)[..4] == LenBytes(|a[0]|) && Frames(b)[..4] == LenBytes(|b[0]|);
      LenRoundTrip(|a[0]|);
      LenRoundTrip(|b[0]|);
      assert Frames(a)[4..|fa|] == a[0] && Frames(b)[4..|fb|] == b[0];
      assert Frames(a)[|fa|..] == Frames(a[1..]) && Frames(b)[|fb|..] == Frames(b[1..]);
      FramesInjective(a[1..], b[1..]);
    }
  }
}
