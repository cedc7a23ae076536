/**
 * One single-producer single-consumer ring, seen at an arbitrary moment: the producer may
 * be in the middle of copying a frame that it has not published, and the consumer may have
 * taken messages off a private head that it has not published. These are the facts that
 * every step of either side keeps.
 */
module AlogChannel {
  import opened Bytea
  import opened AlogRing

  datatype Ring = Ring(area: bytes, head: nat, tail: nat)

  predicate RingOk(r: Ring) { r.head < |r.area| && r.tail < |r.area| }

  /** The producer's side: nothing in progress, or the first `k` bytes of a frame copied. */
  datatype Writing = Quiet | Filling(frame: bytes, k: nat)

  /** The bytes behind the tail that the producer has already copied. */
  ghost predicate Copied(r: Ring, frame: bytes, k: nat)
    requires RingOk(r)
  {
    && k <= |frame| && Used(|r.area|, r.head, r.tail) + |frame| < |r.area|
    && forall j | 0 <= j < k :: r.area[Wrap(r.tail, j, |r.area|)] == frame[j]
  }

  /**
   * From the consumer's private head to the tail lie exactly the pending messages; the
   * private head is between head and tail; a frame in progress fits behind the tail.
   */
  ghost predicate Channel(r: Ring, priv: nat, pending: seq<Msg>, w: Writing) {
    && RingOk(r) && priv < |r.area|
    && Used(|r.area|, r.head, priv) + Used(|r.area|, priv, r.tail) == Used(|r.area|, r.head, r.tail)
    && View(r.area, priv, Used(|r.area|, priv, r.tail)) == Frames(pending)
    && (w.Filling? ==> Copied(r, w.frame, w.k))
  }

  // ----- The producer's steps -----

  lemma BeginFill(r: Ring, priv: nat, pending: seq<Msg>, frame: bytes)
    requires Channel(r, priv, pending, Quiet) && IsEnough(|r.area|, r.head, r.tail, |frame|)
    ensures Channel(r, priv, pending, Filling(frame, 0))
  {
  }

  /** Where byte `k` of a frame in progress goes. */
  function Slot(r: Ring, k: nat): nat
    requires RingOk(r) && k < |r.area|
  {
    Wrap(r.tail, k, |r.area|)
  }

  function Put(r: Ring, k: nat, b: byte): Ring
    requires RingOk(r) && k < |r.area|
  {
    r.(area := r.area[Slot(r, k) := b])
  }

  /** Copying one byte disturbs neither what was copied before nor any pending message. */
  lemma FillByte(r: Ring, priv: nat, pending: seq<Msg>, frame: bytes, k: nat)
    requires Channel(r, priv, pending, Filling(frame, k)) && k < |frame|
    ensures Channel(Put(r, k, frame[k]), priv, pending, Filling(frame, k + 1))
  {
    var size, n := |r.area|, Used(|r.area|, priv, r.tail);
    var r' := Put(r, k, frame[k]);
    forall j | 0 <= j < n ensures r'.area[Wrap(priv, j, size)] == r.area[Wrap(priv, j, size)] {
      assert Wrap(priv, j, size) != Slot(r, k);
    }
    assert View(r'.area, priv, n) == View(r.area, priv, n);
    forall j | 0 <= j < k + 1 ensures r'.area[Wrap(r.tail, j, size)] == frame[j] {
      assert j < k ==> Wrap(r.tail, j, size) != Slot(r, k);
    }
  }

  lemma AdvanceTail(size: nat, head: nat, priv: nat, tail: nat, k: nat)
    requires head < size && priv < size && tail < size
    requires Used(size, head, priv) + Used(size, priv, tail) == Used(size, head, tail)
    requires Used(size, head, tail) + k < size
    ensures Used(size, head, Wrap(tail, k, size)) == Used(size, head, tail) + k
    ensures Used(size, priv, Wrap(tail, k, size)) == Used(size, priv, tail) + k
    ensures Wrap(priv, Used(size, priv, tail), size) == tail
  {
  }

  /** Publishing the tail adds exactly the copied message, whole. */
  lemma PublishFrame(r: Ring, priv: nat, pending: seq<Msg>, m: Msg)
    requires Channel(r, priv, pending, Filling(Frame(m), |Frame(m)|))
    ensures Channel(r.(tail := Wrap(r.tail, |Frame(m)|, |r.area|)), priv, pending + [m], Quiet)
  {
    var size, n, f := |r.area|, Used(|r.area|, priv, r.tail), Frame(m);
    AdvanceTail(size, r.head, priv, r.tail, |f|);
    ViewAppend(r.area, priv, n, |f|);
    assert View(r.area, r.tail, |f|) == f;
    FramesAppend(pending, [m]);
    FramesOne(m);
  }

  // ----- The consumer's steps -----

  /** What the consumer reads at its private head is the frame of the next message. */
  lemma ReadFront(r: Ring, priv: nat, pending: seq<Msg>, w: Writing, j: nat)
    requires Channel(r, priv, pending, w) && pending != [] && j < |Frame(pending[0])|
    ensures |Frame(pending[0])| <= Used(|r.area|, priv, r.tail)
    ensures r.area[Wrap(priv, j, |r.area|)] == Frame(pending[0])[j]
  {
    var v := View(r.area, priv, Used(|r.area|, priv, r.tail));
    assert v == Frame(pending[0]) + Frames(pending[1..]);
    assert v[j] == Frame(pending[0])[j];
  }

  /** The four length bytes at the private head. */
  function Header(area: bytes, p: nat): (b: bytes)
    requires p < |area| && |area| >= 4
    ensures |b| == 4
  {
    View(area, p, 4)
  }

  lemma ReadLength(r: Ring, priv: nat, pending: seq<Msg>, w: Writing)
    requires Channel(r, priv, pending, w) && pending != []
    ensures |r.area| > 4 && LenValue(Header(r.area, priv)) == |pending[0]|
  {
    ReadFront(r, priv, pending, w, 0);
    var h := Header(r.area, priv);
    forall j | 0 <= j < 4 ensures h[j] == LenBytes(|pending[0]|)[j] {
      ReadFront(r, priv, pending, w, j);
    }
    assert h == LenBytes(|pending[0]|);
    LenRoundTrip(|pending[0]|);
  }

  /** Moving the private head past a frame takes exactly one message. */
  lemma TakeFront(r: Ring, priv: nat, pending: seq<Msg>, w: Writing)
    requires Channel(r, priv, pending, w) && pending != []
    ensures |Frame(pending[0])| <= |r.area|
    ensures Channel(r, Wrap(priv, |Frame(pending[0])|, |r.area|), pending[1..], w)
  {
    var size, n, f := |r.area|, Used(|r.area|, priv, r.tail), Frame(pending[0]);
    ReadFront(r, priv, pending, w, 0);
    assert Used(size, Wrap(priv, |f|, size), r.tail) == n - |f|;
    ViewDrop(r.area, priv, n, |f|);
    assert View(r.area, priv, n)[|f|..] == Frames(pending[1..]);
  }

  /** Publishing the private head only makes room. */
  lemma ReleaseHead(r: Ring, priv: nat, pending: seq<Msg>, w: Writing)
    requires Channel(r, priv, pending, w)
    ensures Channel(r.(head := priv), priv, pending, w)
  {
  }
}
