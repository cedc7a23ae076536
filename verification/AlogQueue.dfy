/**
 * The audit-log queue as the object it is: a byte area, a head and a tail that the
 * operations update in place, each proved against the byte sequence or the messages
 * between head and tail.
 */
module AlogQueue {
  import opened Bytea
  import opened AlogRing
  import opened AlogChannel

  function Concat(buffs: seq<bytes>): bytes {
    if buffs == [] then [] else Concat(buffs[..|buffs| - 1]) + buffs[|buffs| - 1]
  }

  class Queue {
    const qSize: nat
    const area: array<byte>
    var qHead: nat
    var qTail: nat

    constructor (size: nat)
      requires size > 0
      ensures Valid() && qSize == size && fresh(area) && qHead == 0 && qTail == 0 && Contents() == []
    {
      qSize := size;
      area := new byte[size];
      qHead, qTail := 0, 0;
    }

    ghost predicate Valid()
      reads this
    {
      area.Length == qSize && qHead < qSize && qTail < qSize
    }

    /** The bytes from head to tail. */
    ghost function Contents(): bytes
      reads this, area
      requires Valid()
    {
      View(area[..], qHead, Used(qSize, qHead, qTail))
    }

    /** The queue as a value, for the facts that both sides of a channel share. */
    ghost function Value(): Ring
      reads this, area
    {
      Ring(area[..], qHead, qTail)
    }

    /** Copies a buffer to the area from `tail` on, in two parts when it runs over the end. */
    method CopyIn(tail: nat, buff: bytes)
      requires Valid() && tail < qSize && |buff| < qSize
      modifies area
      ensures View(area[..], tail, |buff|) == buff
      ensures forall j | |buff| <= j < qSize :: area[Wrap(tail, j, qSize)] == old(area[Wrap(tail, j, qSize)])
    {
      if qSize - tail >= |buff| {
        forall j | 0 <= j < |buff| { area[tail + j] := buff[j]; }
      } else {
        var firstLen := qSize - tail;
        forall j | 0 <= j < firstLen { area[tail + j] := buff[j]; }
        forall j | 0 <= j < |buff| - firstLen { area[j] := buff[firstLen + j]; }
      }
    }

    /**
     * `alog_queue_pushn`: all buffers or none. The bytes between head and tail are not
     * touched, whether or not there is room.
     */
    method PushN(buffs: seq<bytes>) returns (ok: bool)
      requires Valid() && |Concat(buffs)| > 0
      modifies this`qTail, area
      ensures Valid()
      ensures ok <==> |Concat(buffs)| < Remain(qSize, qHead, old(qTail))
      ensures Contents() == if ok then old(Contents()) + Concat(buffs) else old(Contents())
      ensures !ok ==> qTail == old(qTail) && area[..] == old(area[..])
      ensures View(area[..], qHead, Used(qSize, qHead, old(qTail))) == old(Contents())
    {
      var totalLen := 0;
      for i := 0 to |buffs|
        invariant totalLen == |Concat(buffs[..i])|
      {
        totalLen := totalLen + |buffs[i]|;
        assert buffs[..i + 1][..i] == buffs[..i];
      }
      assert buffs[..|buffs|] == buffs;
      FullHasNoRoom(qSize, qHead, qTail);
      if IsFull(qSize, qHead, qTail) { return false; }
      if !IsEnough(qSize, qHead, qTail, totalLen) { return false; }
      var tail := CopyAll(buffs);
      AdvanceTail(qSize, qHead, qHead, qTail, totalLen);
      ViewAppend(area[..], qHead, Used(qSize, qHead, qTail), totalLen);
      qTail := tail;
      ok := true;
    }

    /** The copy loop: buffers one after the other behind the tail, which is not published yet. */
    method CopyAll(buffs: seq<bytes>) returns (tail: nat)
      requires Valid() && |Concat(buffs)| + Used(qSize, qHead, qTail) < qSize
      modifies area
      ensures tail == Wrap(qTail, |Concat(buffs)|, qSize)
      ensures View(area[..], qTail, |Concat(buffs)|) == Concat(buffs)
      ensures View(area[..], qHead, Used(qSize, qHead, qTail)) == old(Contents())
    {
      tail := qTail;
      ghost var used := Used(qSize, qHead, qTail);
      assert Concat(buffs[..0]) == [];
      for i := 0 to |buffs|
        invariant |Concat(buffs[..i])| + used < qSize
        invariant tail == Wrap(qTail, |Concat(buffs[..i])|, qSize)
        invariant View(area[..], qTail, |Concat(buffs[..i])|) == Concat(buffs[..i])
        invariant View(area[..], qHead, used) == old(Contents())
      {
        ConcatGrows(buffs, i);
        tail := CopyOne(tail, buffs[i], |Concat(buffs[..i])|);
      }
      assert buffs[..|buffs|] == buffs;
    }

    /** One turn of the copy loop, `done` bytes behind the published tail. */
    method CopyOne(tail: nat, buff: bytes, ghost done: nat) returns (tail': nat)
      requires Valid() && done + |buff| + Used(qSize, qHead, qTail) < qSize && tail == Wrap(qTail, done, qSize)
      modifies area
      ensures tail' == Wrap(qTail, done + |buff|, qSize)
      ensures View(area[..], qTail, done + |buff|) == old(View(area[..], qTail, done)) + buff
      ensures View(area[..], qHead, Used(qSize, qHead, qTail)) == old(Contents())
    {
      ghost var a0 := area[..];
      CopyIn(tail, buff);
      KeptBefore(a0, area[..], qTail, done, |buff|);
      ViewAppend(area[..], qTail, done, |buff|);
      KeptLive(a0, area[..], qHead, qTail, done, |buff|);
      tail' := Wrap(tail, |buff|, qSize);
    }

    /** The bytes from `p` on, in one piece or in the two pieces around the end of the area. */
    function Pieces(p: nat, n: nat): (ps: seq<bytes>)
      reads this, area
      requires Valid() && p < qSize && n < qSize
      ensures Concat(ps) == View(area[..], p, n)
    {
      if qSize - p >= n then
        var piece := area[p..p + n];
        ConcatPieces(piece, []);
        assert area[..][p..p + n] == piece;
        [piece]
      else
        var first, second := area[p..], area[..n - (qSize - p)];
        ConcatPieces(first, second);
        assert area[..][p..] == first && area[..][..n - (qSize - p)] == second;
        [first, second]
    }

    /** `alog_queue_get_str_len`: the length may itself be split by the end of the area. */
    method GetStrLen(offset: nat) returns (len: nat)
      requires Valid() && offset < qSize && qSize >= 4
      ensures len == LenValue(Header(area[..], offset))
    {
      var buff: bytes;
      if qSize - offset >= 4 {
        buff := area[offset..offset + 4];
        assert area[..][offset..offset + 4] == buff;
      } else {
        var firstLen := qSize - offset;
        buff := area[offset..] + area[..4 - firstLen];
        assert area[..][offset..] == area[offset..] && area[..][..4 - firstLen] == area[..4 - firstLen];
      }
      len := LenValue(buff);
    }

    /** The payload of the frame at `head`, under the three ways the end of the area can fall. */
    method WritePayload(head: nat, len: nat, file: bytes) returns (file': bytes)
      requires Valid() && head < qSize && 4 + len < qSize && len > 0
      ensures file' == file + View(area[..], Wrap(head, 4, qSize), len)
    {
      if qSize - head >= 4 + len {
        file' := file + area[head + 4..head + 4 + len];
      } else if qSize - head > 4 {
        var firstLen := qSize - head - 4;
        file' := file + area[head + 4..head + 4 + firstLen];
        file' := file' + area[..len - firstLen];
      } else {
        var offset := Wrap(head, 4, qSize);
        file' := file + area[offset..offset + len];
      }
    }

    /** `alog_queue_pop_to_file`: the payloads of all messages, and an empty queue. */
    method PopToFile(file: bytes, ghost msgs: seq<Msg>) returns (popped: bool, file': bytes)
      requires Valid() && Contents() == Frames(msgs)
      modifies this`qHead
      ensures Valid() && qHead == qTail && Contents() == []
      ensures popped <==> msgs != []
      ensures file' == file + Payloads(msgs)
    {
      if qHead == qTail {
        assert Contents() == [];
        return false, file + [];
      }
      ghost var r := Value();
      ghost var k := 0;
      var head := qHead;
      file' := file;
      assert msgs[0..] == msgs && msgs[..0] == [];
      StillSome(r, head, msgs, k);
      while true
        invariant Value() == r && 0 <= k < |msgs| && Channel(r, head, msgs[k..], Quiet)
        invariant file' == file + Payloads(msgs[..k])
        decreases |msgs| - k
      {
        PayloadsOneMore(msgs, k);
        head, file' := WriteFront(head, file', r, msgs, k);
        k := k + 1;
        if head == qTail { break; }
        StillSome(r, head, msgs, k);
      }
      LastTaken(r, head, msgs, k);
      assert msgs[..k] == msgs;
      qHead := head;
      popped := true;
    }

    /** One turn of the loop: the message at the private head goes to the file. */
    method WriteFront(head: nat, file: bytes, ghost r: Ring, ghost msgs: seq<Msg>, ghost k: nat)
      returns (head': nat, file': bytes)
      requires Valid() && Value() == r && k < |msgs| && Channel(r, head, msgs[k..], Quiet)
      ensures Channel(r, head', msgs[k + 1..], Quiet)
      ensures file' == file + msgs[k]
    {
      ghost var pending := msgs[k..];
      ReadLength(r, head, pending, Quiet);
      var len := GetStrLen(head);
      FrontPayload(r, head, pending, Quiet);
      file' := WritePayload(head, len, file);
      TakeFront(r, head, pending, Quiet);
      head' := Wrap(head, 4 + len, qSize);
      assert pending[1..] == msgs[k + 1..];
    }
  }

  lemma ConcatPieces(a: bytes, b: bytes)
    ensures Concat([a]) == a && Concat([a, b]) == a + b
  {
    assert [a, b][..1] == [a] && [a][..0] == [];
    assert Concat([a]) == [] + a;
  }

  lemma PayloadsOneMore(ms: seq<Msg>, k: nat)
    requires k < |ms|
    ensures Payloads(ms[..k + 1]) == Payloads(ms[..k]) + ms[k]
  {
    assert ms[..k + 1] == ms[..k] + [ms[k]];
    PayloadsAppend(ms[..k], [ms[k]]);
    assert [ms[k]][1..] == [];
  }

  /** Behind the length bytes at the private head comes the text of the next message. */
  lemma FrontPayload(r: Ring, priv: nat, pending: seq<Msg>, w: Writing)
    requires Channel(r, priv, pending, w) && pending != []
    ensures |Frame(pending[0])| < |r.area|
    ensures View(r.area, priv, |Frame(pending[0])|) == Frame(pending[0])
    ensures View(r.area, Wrap(priv, 4, |r.area|), |pending[0]|) == pending[0]
  {
    var f := Frame(pending[0]);
    ReadFront(r, priv, pending, w, 0);
    var v := View(r.area, priv, |f|);
    forall j | 0 <= j < |f| ensures v[j] == f[j] { ReadFront(r, priv, pending, w, j); }
    assert v == f;
    ViewDrop(r.area, priv, |f|, 4);
  }

  lemma StillSome(r: Ring, priv: nat, msgs: seq<Msg>, k: nat)
    requires k <= |msgs| && Channel(r, priv, msgs[k..], Quiet) && priv != r.tail
    ensures k < |msgs|
  {
    if k == |msgs| { assert false; }
  }

  /** A private head that has caught up with the tail has taken every message. */
  lemma LastTaken(r: Ring, priv: nat, msgs: seq<Msg>, k: nat)
    requires k <= |msgs| && Channel(r, priv, msgs[k..], Quiet) && priv == r.tail
    ensures k == |msgs|
  {
    assert Frames(msgs[k..]) == [];
  }

  lemma {:induction false} ConcatLonger(buffs: seq<bytes>, i: nat)
    requires i <= |buffs|
    ensures |Concat(buffs[..i])| <= |Concat(buffs)|
  {
    if i < |buffs| {
      ConcatLonger(buffs[..|buffs| - 1], i);
      assert buffs[..|buffs| - 1][..i] == buffs[..i];
    } else {
      assert buffs[..i] == buffs;
    }
  }

  lemma ConcatGrows(buffs: seq<bytes>, i: nat)
    requires i < |buffs|
    ensures Concat(buffs[..i + 1]) == Concat(buffs[..i]) + buffs[i]
    ensures |Concat(buffs[..i])| + |buffs[i]| <= |Concat(buffs)|
  {
    assert buffs[..i + 1][..i] == buffs[..i];
    ConcatLonger(buffs, i + 1);
  }

  /** Only `len` bytes from offset `done` behind `tail` may differ. */
  ghost predicate Elsewhere(a: bytes, b: bytes, tail: nat, done: nat, len: nat) {
    && |a| == |b| && tail < |a| && done + len < |a|
    && forall j | len <= j < |a| :: b[Wrap(Wrap(tail, done, |a|), j, |a|)] == a[Wrap(Wrap(tail, done, |a|), j, |a|)]
  }

  /** Bytes copied behind the tail earlier stay. */
  lemma KeptBefore(a: bytes, b: bytes, tail: nat, done: nat, len: nat)
    requires Elsewhere(a, b, tail, done, len)
    ensures View(b, tail, done) == View(a, tail, done)
  {
    var size := |a|;
    forall j | 0 <= j < done ensures b[Wrap(tail, j, size)] == a[Wrap(tail, j, size)] {
      assert Wrap(Wrap(tail, done, size), size - done + j, size) == Wrap(tail, j, size);
    }
  }

  /** Bytes between head and tail stay. */
  lemma KeptLive(a: bytes, b: bytes, head: nat, tail: nat, done: nat, len: nat)
    requires Elsewhere(a, b, tail, done, len) && head < |a| && Used(|a|, head, tail) + done + len < |a|
    ensures View(b, head, Used(|a|, head, tail)) == View(a, head, Used(|a|, head, tail))
  {
    var size, used := |a|, Used(|a|, head, tail);
    forall j | 0 <= j < used ensures b[Wrap(head, j, size)] == a[Wrap(head, j, size)] {
      assert Wrap(Wrap(tail, done, size), size - done - used + j, size) == Wrap(head, j, size);
    }
  }

  // ----- From one queue to another -----

  /** Two queues that share no memory. */
  ghost predicate Apart(from: Queue, to: Queue)
    reads from, to
  {
    from != to && from.area != to.area && from.Valid() && to.Valid()
  }

  /**
   * `alog_queue_pop_to_queue`: moves messages, whole and in order, until the next one does
   * not fit or none is left; the source's head is published only at the end.
   */
  method PopToQueue(from: Queue, to: Queue, ghost msgs: seq<Msg>) returns (popped: bool, ghost k: nat)
    requires Apart(from, to) && from.Contents() == Frames(msgs)
    modifies from`qHead, to`qTail, to.area
    ensures Apart(from, to) && k <= |msgs|
    ensures from.Contents() == Frames(msgs[k..])
    ensures to.Contents() == old(to.Contents()) + Frames(msgs[..k])
    ensures popped <==> msgs != [] && !IsFull(to.qSize, to.qHead, old(to.qTail))
    ensures k < |msgs| ==> Remain(to.qSize, to.qHead, to.qTail) <= |Frame(msgs[k])|
  {
    assert msgs[0..] == msgs && msgs[..0] == [];
    FullHasNoRoom(to.qSize, to.qHead, to.qTail);
    if from.qHead == from.qTail {
      assert from.Contents() == [];
      return false, 0;
    }
    if IsFull(to.qSize, to.qHead, to.qTail) { return false, 0; }
    var head;
    head, k := MoveAll(from, to, msgs);
    from.qHead := head;
    popped := true;
  }

  /** The loop that moves messages while a private head runs ahead of the published one. */
  method MoveAll(from: Queue, to: Queue, ghost msgs: seq<Msg>) returns (head: nat, ghost k: nat)
    requires Apart(from, to) && from.Contents() == Frames(msgs) && from.qHead != from.qTail
    modifies to`qTail, to.area
    ensures Apart(from, to) && k <= |msgs| && Channel(from.Value(), head, msgs[k..], Quiet)
    ensures to.Contents() == old(to.Contents()) + Frames(msgs[..k])
    ensures k < |msgs| ==> Remain(to.qSize, to.qHead, to.qTail) <= |Frame(msgs[k])|
  {
    ghost var r, c0 := from.Value(), to.Contents();
    head, k := from.qHead, 0;
    assert msgs[0..] == msgs && msgs[..0] == [];
    StillSome(r, head, msgs, k);
    while true
      invariant Apart(from, to) && from.Value() == r
      invariant 0 <= k < |msgs| && Channel(r, head, msgs[k..], Quiet)
      invariant to.Contents() == c0 + Frames(msgs[..k])
      decreases |msgs| - k
    {
      var moved;
      moved, head := MoveFront(from, to, head, r, c0, msgs, k);
      if !moved { return; }
      k := k + 1;
      if head == from.qTail { break; }
      StillSome(r, head, msgs, k);
    }
    LastTaken(r, head, msgs, k);
  }

  lemma FramesOneMore(ms: seq<Msg>, k: nat)
    requires k < |ms|
    ensures Frames(ms[..k + 1]) == Frames(ms[..k]) + Frame(ms[k])
  {
    assert ms[..k + 1] == ms[..k] + [ms[k]];
    FramesAppend(ms[..k], [ms[k]]);
    FramesOne(ms[k]);
  }

  /** One turn of the loop: the frame at the private head goes to the other queue if it fits. */
  method MoveFront(from: Queue, to: Queue, head: nat, ghost r: Ring, ghost c0: bytes, ghost msgs: seq<Msg>,
                   ghost k: nat)
    returns (moved: bool, head': nat)
    requires Apart(from, to) && from.Value() == r && k < |msgs| && Channel(r, head, msgs[k..], Quiet)
    requires to.Contents() == c0 + Frames(msgs[..k])
    modifies to`qTail, to.area
    ensures Apart(from, to)
    ensures moved <==> |Frame(msgs[k])| < Remain(to.qSize, to.qHead, old(to.qTail))
    ensures moved ==> Channel(r, head', msgs[k + 1..], Quiet) && to.Contents() == c0 + Frames(msgs[..k + 1])
    ensures !moved ==> head' == head && to.qTail == old(to.qTail) && to.Contents() == old(to.Contents())
  {
    ghost var pending := msgs[k..];
    var copyLen;
    moved, copyLen := PushFront(from, to, head, r, pending);
    head' := head;
    if moved {
      OneMoved(r, head, c0, msgs, k);
      head' := Wrap(head, copyLen, from.qSize);
    }
  }

  lemma OneMoved(r: Ring, head: nat, c0: bytes, msgs: seq<Msg>, k: nat)
    requires k < |msgs| && Channel(r, head, msgs[k..], Quiet)
    ensures |Frame(msgs[k])| <= |r.area|
    ensures Channel(r, Wrap(head, |Frame(msgs[k])|, |r.area|), msgs[k + 1..], Quiet)
    ensures (c0 + Frames(msgs[..k])) + Frame(msgs[k]) == c0 + Frames(msgs[..k + 1])
  {
    FramesOneMore(msgs, k);
    assert msgs[k..][1..] == msgs[k + 1..];
    TakeFront(r, head, msgs[k..], Quiet);
  }

  /** Reads the length at the private head and pushes the frame, in one or two pieces. */
  method PushFront(from: Queue, to: Queue, head: nat, ghost r: Ring, ghost pending: seq<Msg>)
    returns (moved: bool, copyLen: nat)
    requires Apart(from, to) && from.Value() == r && pending != [] && Channel(r, head, pending, Quiet)
    modifies to`qTail, to.area
    ensures Apart(from, to) && copyLen == |Frame(pending[0])|
    ensures moved <==> copyLen < Remain(to.qSize, to.qHead, old(to.qTail))
    ensures to.Contents() == if moved then old(to.Contents()) + Frame(pending[0]) else old(to.Contents())
    ensures !moved ==> to.qTail == old(to.qTail)
  {
    ReadLength(r, head, pending, Quiet);
    var len := from.GetStrLen(head);
    copyLen := 4 + len;
    FrontPayload(r, head, pending, Quiet);
    moved := false;
    if IsEnough(to.qSize, to.qHead, to.qTail, copyLen) {
      moved := to.PushN(from.Pieces(head, copyLen));
    }
  }
}
