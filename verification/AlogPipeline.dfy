/**
 * The audit-log pipeline as an interleaving of single steps: each producer copies frames
 * byte by byte into its own ring and then publishes its tail; the consumer snapshots a
 * ring, copies whole frames byte by byte into the cache, publishes the cache's tail after
 * every message and the ring's head only at the end; the writer snapshots the cache, emits
 * payloads byte by byte and publishes the cache's head at the end. Every access to shared
 * memory that another thread may race with is a step of its own.
 */
module AlogPipeline {
  import opened Bytea
  import opened AlogRing
  import opened AlogChannel

  // ----- The threads and the memory they share -----

  datatype Producer = PIdle | PCopy(msg: Msg, k: nat)

  /**
   * `next`: the ring to visit next; `fh`, `ft`: private head and snapshot tail of a ring; `th`,
   * `tt`: those of the cache.
   */
  datatype Consumer =
    | CIdle(next: nat)
    | CLook(i: nat, fh: nat, ft: nat)
    | CLoop(i: nat, fh: nat, ft: nat, th: nat, tt: nat)
    | CCopy(i: nat, fh: nat, ft: nat, th: nat, tt: nat, len: nat, k: nat)
    | CFinish(i: nat, fh: nat)

  datatype Writer =
    | WIdle
    | WLoop(h: nat, t: nat)
    | WEmit(h: nat, t: nat, len: nat, k: nat)
    | WFinish(h: nat)

  datatype System = System(
    rings: seq<Ring>, producers: seq<Producer>,
    cache: Ring, consumer: Consumer,
    writer: Writer, file: bytes)

  datatype Step =
    | Offer(i: nat, m: Msg) | CopyByte(i: nat) | Publish(i: nat)
    | Snapshot(i: nat) | Decide | Measure | MoveByte | PublishMove | Release
    | Open | Inspect | EmitByte | NextMessage | Close

  function Adv(r: Ring, p: nat, k: nat): nat { if p < |r.area| && k <= |r.area| then Wrap(p, k, |r.area|) else 0 }

  function ByteAt(r: Ring, p: nat, k: nat): byte {
    if p < |r.area| && k <= |r.area| then r.area[Wrap(p, k, |r.area|)] else 0
  }

  function PutAt(r: Ring, k: nat, b: byte): Ring {
    if RingOk(r) && k < |r.area| then r.(area := r.area[Wrap(r.tail, k, |r.area|) := b]) else r
  }

  /** `alog_queue_get_str_len` */
  function StrLen(r: Ring, p: nat): nat {
    if p < |r.area| && |r.area| >= 4 then LenValue(View(r.area, p, 4)) else 0
  }

  predicate Enough(r: Ring, head: nat, tail: nat, n: nat) {
    head < |r.area| && tail < |r.area| && IsEnough(|r.area|, head, tail, n)
  }

  /** The rings are visited in turn. */
  function NextRing(i: nat, n: nat): nat { if i + 1 < n then i + 1 else 0 }

  predicate Enabled(s: System, step: Step) {
    match step
    case Offer(i, m) => i < |s.rings| && |s.producers| == |s.rings| && s.producers[i].PIdle?
    case CopyByte(i) =>
      i < |s.rings| && |s.producers| == |s.rings| && s.producers[i].PCopy?
      && s.producers[i].k < |Frame(s.producers[i].msg)|
    case Publish(i) =>
      i < |s.rings| && |s.producers| == |s.rings| && s.producers[i].PCopy?
      && s.producers[i].k == |Frame(s.producers[i].msg)|
    case Snapshot(i) => i < |s.rings| && s.consumer == CIdle(i)
    case Decide => s.consumer.CLook? && s.consumer.i < |s.rings|
    case Measure => s.consumer.CLoop? && s.consumer.i < |s.rings|
    case MoveByte => s.consumer.CCopy? && s.consumer.i < |s.rings| && s.consumer.k < s.consumer.len
    case PublishMove => s.consumer.CCopy? && s.consumer.i < |s.rings| && s.consumer.k == s.consumer.len
    case Release => s.consumer.CFinish? && s.consumer.i < |s.rings|
    case Open => s.writer.WIdle?
    case Inspect => s.writer.WLoop?
    case EmitByte => s.writer.WEmit? && s.writer.k < s.writer.len
    case NextMessage => s.writer.WEmit? && s.writer.k == s.writer.len
    case Close => s.writer.WFinish?
  }

  function Apply(s: System, step: Step): System
    requires Enabled(s, step)
  {
    match step
    case Offer(i, m) =>
      var r := s.rings[i];
      if Enough(r, r.head, r.tail, |Frame(m)|) then s.(producers := s.producers[i := PCopy(m, 0)]) else s
    case CopyByte(i) =>
      var p := s.producers[i];
      s.(rings := s.rings[i := PutAt(s.rings[i], p.k, Frame(p.msg)[p.k])],
         producers := s.producers[i := PCopy(p.msg, p.k + 1)])
    case Publish(i) =>
      var r := s.rings[i];
      s.(rings := s.rings[i := r.(tail := Adv(r, r.tail, |Frame(s.producers[i].msg)|))],
         producers := s.producers[i := PIdle])
    case Snapshot(i) =>
      s.(consumer := CLook(i, s.rings[i].head, s.rings[i].tail))
    case Decide =>
      var c, to := s.consumer, s.cache;
      if c.fh == c.ft || (RingOk(to) && IsFull(|to.area|, to.head, to.tail))
      then s.(consumer := CIdle(NextRing(c.i, |s.rings|)))
      else s.(consumer := CLoop(c.i, c.fh, c.ft, to.head, to.tail))
    case Measure =>
      var c := s.consumer;
      var copy := 4 + StrLen(s.rings[c.i], c.fh);
      if Enough(s.cache, c.th, c.tt, copy) && Enough(s.cache, s.cache.head, s.cache.tail, copy)
      then s.(consumer := CCopy(c.i, c.fh, c.ft, c.th, c.tt, copy, 0))
      else s.(consumer := CFinish(c.i, c.fh))
    case MoveByte =>
      var c := s.consumer;
      s.(cache := PutAt(s.cache, c.k, ByteAt(s.rings[c.i], c.fh, c.k)), consumer := c.(k := c.k + 1))
    case PublishMove =>
      var c := s.consumer;
      var fh, tail := Adv(s.rings[c.i], c.fh, c.len), Adv(s.cache, s.cache.tail, c.len);
      s.(cache := s.cache.(tail := tail),
         consumer := if fh == c.ft then CFinish(c.i, fh) else CLoop(c.i, fh, c.ft, c.th, tail))
    case Release =>
      var c := s.consumer;
      s.(rings := s.rings[c.i := s.rings[c.i].(head := c.fh)], consumer := CIdle(NextRing(c.i, |s.rings|)))
    case Open =>
      if s.cache.head == s.cache.tail then s else s.(writer := WLoop(s.cache.head, s.cache.tail))
    case Inspect => s.(writer := WEmit(s.writer.h, s.writer.t, StrLen(s.cache, s.writer.h), 0))
    case EmitByte =>
      s.(file := s.file + [ByteAt(s.cache, s.writer.h, 4 + s.writer.k)], writer := s.writer.(k := s.writer.k + 1))
    case NextMessage =>
      var h := Adv(s.cache, s.writer.h, 4 + s.writer.len);
      s.(writer := if h == s.writer.t then WFinish(h) else WLoop(h, s.writer.t))
    case Close => s.(cache := s.cache.(head := s.writer.h), writer := WIdle)
  }

  // ----- The message queues that the bytes stand for -----

  datatype Tagged = Tagged(from: nat, msg: Msg)

  /**
   * A network of message queues beside the system, which no step looks at: what each
   * producer has had accepted, what of it still waits in its ring, what is in the cache,
   * and what has been written; `ahead` and `wahead` are the numbers of messages that the
   * current snapshots of consumer and writer still reach.
   */
  datatype Network = Network(
    accepted: seq<seq<Msg>>, waiting: seq<seq<Msg>>,
    cached: seq<Tagged>, written: seq<Tagged>,
    ahead: nat, wahead: nat)

  function Waiting(n: Network, i: nat): seq<Msg> { if i < |n.waiting| then n.waiting[i] else [] }

  function Front(q: seq<Msg>): Msg { if q == [] then [0] else q[0] }

  function Rest<T>(q: seq<T>): seq<T> { if q == [] then [] else q[1..] }

  function First<T>(q: seq<T>): seq<T> { if q == [] then [] else [q[0]] }

  function UpTo(q: seq<Msg>, k: nat): seq<Msg> { if k <= |q| then q[..k] else q }

  function Msgs(ts: seq<Tagged>): (ms: seq<Msg>)
    ensures |ms| == |ts| && forall k | 0 <= k < |ts| :: ms[k] == ts[k].msg
  {
    if ts == [] then [] else [ts[0].msg] + Msgs(ts[1..])
  }

  /** The messages that came from producer `i`, in order. */
  function Of(ts: seq<Tagged>, i: nat): seq<Msg> {
    if ts == [] then [] else (if ts[0].from == i then [ts[0].msg] else []) + Of(ts[1..], i)
  }

  /** What a step does to the queues: only publishing moves messages. */
  function Record(s: System, n: Network, step: Step): Network
    requires Enabled(s, step) && |n.accepted| == |n.waiting| == |s.rings|
  {
    match step
    case Publish(i) =>
      var m := s.producers[i].msg;
      n.(accepted := n.accepted[i := n.accepted[i] + [m]], waiting := n.waiting[i := n.waiting[i] + [m]])
    case Snapshot(i) => n.(ahead := |n.waiting[i]|)
    case PublishMove =>
      var i := s.consumer.i;
      n.(waiting := n.waiting[i := Rest(n.waiting[i])],
         cached := n.cached + [Tagged(i, Front(n.waiting[i]))],
         ahead := if n.ahead > 0 then n.ahead - 1 else 0)
    case Open => n.(wahead := |n.cached|)
    case NextMessage =>
      n.(cached := Rest(n.cached), written := n.written + First(n.cached),
         wahead := if n.wahead > 0 then n.wahead - 1 else 0)
    case _ => n
  }

  // ----- The invariant -----

  /** Head of ring `i` as the consumer sees it. */
  function PrivateHead(s: System, i: nat, r: Ring): nat {
    if !s.consumer.CIdle? && s.consumer.i == i then s.consumer.fh else r.head
  }

  function WriterHead(s: System): nat { if s.writer.WIdle? then s.cache.head else s.writer.h }

  function ProducerWriting(p: Producer): Writing {
    if p.PIdle? then Quiet else Filling(Frame(p.msg), p.k)
  }

  function ConsumerWriting(c: Consumer, n: Network): Writing {
    if c.CCopy? then Filling(Frame(Front(Waiting(n, c.i))), c.k) else Quiet
  }

  /** Every message comes from one of `k` producers. */
  ghost predicate FromProducers(ts: seq<Tagged>, k: nat) { forall t | t in ts :: t.from < k }

  ghost predicate Shape(s: System, n: Network) {
    && |s.producers| == |s.rings| == |n.accepted| == |n.waiting|
    && FromProducers(n.written, |s.rings|) && FromProducers(n.cached, |s.rings|)
    && (if s.consumer.CIdle? then |s.rings| > 0 ==> s.consumer.next < |s.rings| else s.consumer.i < |s.rings|)
  }

  /** Past the consumer's private head, ring `i` holds exactly what waits in it. */
  ghost predicate RingHolds(s: System, n: Network, i: nat) {
    && i < |s.rings| && i < |s.producers|
    && Channel(s.rings[i], PrivateHead(s, i, s.rings[i]), Waiting(n, i), ProducerWriting(s.producers[i]))
  }

  /** Past the writer's private head, the cache holds exactly what is cached. */
  ghost predicate CacheHolds(s: System, n: Network) {
    Channel(s.cache, WriterHead(s), Msgs(n.cached), ConsumerWriting(s.consumer, n))
  }

  /** A snapshot tail that is `ahead` messages past the private head, at least one. */
  ghost predicate Reaches(size: nat, head: nat, tail: nat, q: seq<Msg>, ahead: nat) {
    && 0 < ahead <= |q| && head < size && tail < size
    && Used(size, head, tail) == |Frames(UpTo(q, ahead))|
  }

  ghost predicate ConsumerOk(s: System, n: Network) {
    var c := s.consumer;
    if c.CLook? then
      && c.i < |s.rings| && c.fh == s.rings[c.i].head
      && (c.fh == c.ft || Reaches(|s.rings[c.i].area|, c.fh, c.ft, Waiting(n, c.i), n.ahead))
    else c.CLoop? || c.CCopy? ==>
      && c.i < |s.rings| && c.tt == s.cache.tail
      && Reaches(|s.rings[c.i].area|, c.fh, c.ft, Waiting(n, c.i), n.ahead)
      && (c.CCopy? ==> c.len == |Frame(Front(Waiting(n, c.i)))| && c.k <= c.len)
  }

  ghost predicate WriterOk(s: System, n: Network) {
    var w := s.writer;
    w.WLoop? || w.WEmit? ==>
      && Reaches(|s.cache.area|, w.h, w.t, Msgs(n.cached), n.wahead)
      && (w.WEmit? ==> w.len == |Front(Msgs(n.cached))| && w.k <= w.len)
  }

  /** The payloads of the written messages, and of the current one what was emitted so far. */
  ghost predicate FileOk(s: System, n: Network) {
    s.file == Payloads(Msgs(n.written)) + if s.writer.WEmit? then Take(Front(Msgs(n.cached)), s.writer.k) else []
  }

  /** Nothing lost, duplicated or reordered: what producer `i` had accepted is all there, in order. */
  ghost predicate Conserved(n: Network, i: nat) {
    i < |n.accepted| && n.accepted[i] == Of(n.written, i) + Of(n.cached, i) + Waiting(n, i)
  }

  ghost predicate Inv(s: System, n: Network) {
    && Shape(s, n)
    && (forall i | 0 <= i < |s.rings| :: RingHolds(s, n, i))
    && CacheHolds(s, n) && ConsumerOk(s, n) && WriterOk(s, n) && FileOk(s, n)
    && (forall i | 0 <= i < |s.rings| :: Conserved(n, i))
  }
}
