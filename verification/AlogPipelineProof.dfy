/**
 * Every step of the pipeline keeps its invariant, and what the invariant says of the
 * bytes in memory and on file at any moment of any run.
 */
module AlogPipelineProof {
  import opened Bytea
  import opened AlogRing
  import opened AlogChannel
  import opened AlogPipeline

  // ----- Queues -----

  lemma UpToOfAppend(q: seq<Msg>, m: Msg, k: nat)
    requires k <= |q|
    ensures UpTo(q + [m], k) == UpTo(q, k)
  {
  }

  /** How far a snapshot reaches once one message less is ahead. */
  lemma OneLess(q: seq<Msg>, k: nat)
    requires 0 < k <= |q|
    ensures |Frames(UpTo(q, k))| == |Frame(q[0])| + |Frames(UpTo(q[1..], k - 1))|
    ensures Frames(UpTo(q[1..], k - 1)) == [] <==> k == 1
  {
    assert q[..k][1..] == q[1..][..k - 1];
  }

  lemma MsgsAppend(a: seq<Tagged>, t: Tagged)
    ensures Msgs(a + [t]) == Msgs(a) + [t.msg]
  {
  }

  lemma {:induction false} OfAppend(a: seq<Tagged>, b: seq<Tagged>, i: nat)
    ensures Of(a + b, i) == Of(a, i) + Of(b, i)
  {
    if a == [] {
      assert a + b == b;
    } else {
      assert (a + b)[1..] == a[1..] + b;
      OfAppend(a[1..], b, i);
    }
  }

  lemma OfOne(t: Tagged, i: nat)
    ensures Of([t], i) == if t.from == i then [t.msg] else []
  {
    assert [t][1..] == [];
  }

  // ----- Producers -----

  /** Nothing but ring `i`, its producer and its queue changed, and the queue only grew. */
  ghost predicate OnlyRing(s: System, s': System, n: Network, n': Network, i: nat) {
    && Shape(s, n) && Shape(s', n') && i < |s.rings| == |s'.rings|
    && s' == s.(rings := s'.rings, producers := s'.producers)
    && n' == n.(accepted := n'.accepted, waiting := n'.waiting)
    && |s'.rings[i].area| == |s.rings[i].area| && s'.rings[i].head == s.rings[i].head
    && n.waiting[i] <= n'.waiting[i]
    && forall j | 0 <= j < |s.rings| && j != i ::
         s'.rings[j] == s.rings[j] && s'.producers[j] == s.producers[j]
         && n'.waiting[j] == n.waiting[j] && n'.accepted[j] == n.accepted[j]
  }

  lemma ProducerKeeps(s: System, s': System, n: Network, n': Network, i: nat)
    requires Inv(s, n) && OnlyRing(s, s', n, n', i) && RingHolds(s', n', i) && Conserved(n', i)
    ensures Inv(s', n')
  {
    forall j | 0 <= j < |s'.rings| ensures RingHolds(s', n', j) && Conserved(n', j) {
      assert RingHolds(s, n, j) && Conserved(n, j);
      if j != i { OtherRing(s, s', n, n', i, j); }
    }
    ConsumerUnmoved(s, s', n, n', i);
    assert ConsumerWriting(s'.consumer, n') == ConsumerWriting(s.consumer, n);
  }

  lemma OtherRing(s: System, s': System, n: Network, n': Network, i: nat, j: nat)
    requires OnlyRing(s, s', n, n', i) && j != i && RingHolds(s, n, j) && Conserved(n, j)
    ensures RingHolds(s', n', j) && Conserved(n', j)
  {
  }

  /** The message at the front and the snapshot do not notice what a producer appends. */
  lemma ConsumerUnmoved(s: System, s': System, n: Network, n': Network, i: nat)
    requires OnlyRing(s, s', n, n', i) && ConsumerOk(s, n)
    ensures ConsumerOk(s', n')
    ensures s.consumer.CCopy? ==> Front(Waiting(n', s.consumer.i)) == Front(Waiting(n, s.consumer.i))
  {
    var c := s.consumer;
    if !c.CIdle? && !c.CFinish? && c.i == i && n.ahead <= |n.waiting[i]| {
      assert UpTo(n'.waiting[i], n.ahead) == UpTo(n.waiting[i], n.ahead);
    }
  }

  lemma OfferKeeps(s: System, n: Network, i: nat, m: Msg)
    requires Inv(s, n) && Enabled(s, Offer(i, m))
    ensures Inv(Apply(s, Offer(i, m)), Record(s, n, Offer(i, m)))
  {
    var s' := Apply(s, Offer(i, m));
    if s' != s {
      assert RingHolds(s, n, i) && Conserved(n, i);
      BeginFill(s.rings[i], PrivateHead(s, i, s.rings[i]), n.waiting[i], Frame(m));
      ProducerKeeps(s, s', n, n, i);
    }
  }

  lemma CopyByteKeeps(s: System, n: Network, i: nat)
    requires Inv(s, n) && Enabled(s, CopyByte(i))
    ensures Inv(Apply(s, CopyByte(i)), Record(s, n, CopyByte(i)))
  {
    var p := s.producers[i];
    assert RingHolds(s, n, i) && Conserved(n, i);
    FillByte(s.rings[i], PrivateHead(s, i, s.rings[i]), n.waiting[i], Frame(p.msg), p.k);
    ProducerKeeps(s, Apply(s, CopyByte(i)), n, n, i);
  }

  lemma PublishKeeps(s: System, n: Network, i: nat)
    requires Inv(s, n) && Enabled(s, Publish(i))
    ensures Inv(Apply(s, Publish(i)), Record(s, n, Publish(i)))
  {
    var s', n', m := Apply(s, Publish(i)), Record(s, n, Publish(i)), s.producers[i].msg;
    assert RingHolds(s, n, i) && Conserved(n, i);
    PublishFrame(s.rings[i], PrivateHead(s, i, s.rings[i]), n.waiting[i], m);
    assert n'.accepted[i] == n.accepted[i] + [m];
    ProducerKeeps(s, s', n, n', i);
  }

  // ----- The consumer -----

  /** A step of the consumer alone that leaves every ring's private head where it was. */
  lemma ConsumerSideKeeps(s: System, s': System, n: Network, n': Network)
    requires Inv(s, n) && s' == s.(consumer := s'.consumer) && n' == n.(ahead := n'.ahead)
    requires Shape(s', n') && ConsumerOk(s', n') && !s.consumer.CCopy? && !s'.consumer.CCopy?
    requires forall j | 0 <= j < |s.rings| :: PrivateHead(s', j, s.rings[j]) == PrivateHead(s, j, s.rings[j])
    ensures Inv(s', n')
  {
    forall j | 0 <= j < |s.rings| ensures RingHolds(s', n', j) && Conserved(n', j) {
      assert RingHolds(s, n, j) && Conserved(n, j);
    }
  }

  lemma SnapshotKeeps(s: System, n: Network, i: nat)
    requires Inv(s, n) && Enabled(s, Snapshot(i))
    ensures Inv(Apply(s, Snapshot(i)), Record(s, n, Snapshot(i)))
  {
    assert RingHolds(s, n, i);
    if s.rings[i].head != s.rings[i].tail {
      assert UpTo(n.waiting[i], |n.waiting[i]|) == n.waiting[i];
      assert Frames(n.waiting[i]) != [];
    }
    ConsumerSideKeeps(s, Apply(s, Snapshot(i)), n, Record(s, n, Snapshot(i)));
  }

  lemma DecideKeeps(s: System, n: Network)
    requires Inv(s, n) && Enabled(s, Decide)
    ensures Inv(Apply(s, Decide), Record(s, n, Decide))
  {
    ConsumerSideKeeps(s, Apply(s, Decide), n, n);
  }

  /** A step of the consumer that leaves the rings and its private head alone. */
  lemma CacheSideKeeps(s: System, s': System, n: Network)
    requires Inv(s, n) && !s.consumer.CIdle? && !s'.consumer.CIdle?
    requires s' == s.(cache := s'.cache, consumer := s'.consumer)
    requires s'.consumer.i == s.consumer.i && s'.consumer.fh == s.consumer.fh
    requires |s'.cache.area| == |s.cache.area| && s'.cache.head == s.cache.head
    requires CacheHolds(s', n) && ConsumerOk(s', n)
    ensures Inv(s', n)
  {
    forall j | 0 <= j < |s.rings| ensures RingHolds(s', n, j) { assert RingHolds(s, n, j); }
  }

  lemma MeasureKeeps(s: System, n: Network)
    requires Inv(s, n) && Enabled(s, Measure)
    ensures Inv(Apply(s, Measure), Record(s, n, Measure))
  {
    var s', i := Apply(s, Measure), s.consumer.i;
    assert RingHolds(s, n, i);
    ReadLength(s.rings[i], s.consumer.fh, n.waiting[i], ProducerWriting(s.producers[i]));
    if s'.consumer.CCopy? {
      BeginFill(s.cache, WriterHead(s), Msgs(n.cached), Frame(n.waiting[i][0]));
    }
    CacheSideKeeps(s, s', n);
  }

  lemma MoveByteKeeps(s: System, n: Network)
    requires Inv(s, n) && Enabled(s, MoveByte)
    ensures Inv(Apply(s, MoveByte), Record(s, n, MoveByte))
  {
    var s', c := Apply(s, MoveByte), s.consumer;
    var f := Frame(n.waiting[c.i][0]);
    assert RingHolds(s, n, c.i);
    ReadFront(s.rings[c.i], c.fh, n.waiting[c.i], ProducerWriting(s.producers[c.i]), c.k);
    FillByte(s.cache, WriterHead(s), Msgs(n.cached), f, c.k);
    assert s'.cache == Put(s.cache, c.k, f[c.k]);
    CacheSideKeeps(s, s', n);
  }

  /** A private head that moves one message on keeps reaching the snapshot, or has arrived at it. */
  lemma ReachShrinks(size: nat, p: nat, t: nat, q: seq<Msg>, ahead: nat, k: nat)
    requires Reaches(size, p, t, q, ahead) && k == |Frame(q[0])|
    ensures k <= size
    ensures if ahead == 1 then Wrap(p, k, size) == t
            else Wrap(p, k, size) != t && Reaches(size, Wrap(p, k, size), t, q[1..], ahead - 1)
  {
    OneLess(q, ahead);
  }

  /** Moving one message: it leaves the ring's front ... */
  lemma PublishMoveRing(s: System, n: Network)
    requires Enabled(s, PublishMove) && Shape(s, n) && ConsumerOk(s, n) && RingHolds(s, n, s.consumer.i)
    ensures RingHolds(Apply(s, PublishMove), Record(s, n, PublishMove), s.consumer.i)
    ensures ConsumerOk(Apply(s, PublishMove), Record(s, n, PublishMove))
  {
    var c := s.consumer;
    TakeFront(s.rings[c.i], c.fh, n.waiting[c.i], ProducerWriting(s.producers[c.i]));
    ReachShrinks(|s.rings[c.i].area|, c.fh, c.ft, n.waiting[c.i], n.ahead, c.len);
  }

  /** ... and joins the cache's rear, whole. */
  lemma PublishMoveCache(s: System, n: Network)
    requires Enabled(s, PublishMove) && Shape(s, n) && ConsumerOk(s, n) && CacheHolds(s, n)
    ensures CacheHolds(Apply(s, PublishMove), Record(s, n, PublishMove))
  {
    var m := n.waiting[s.consumer.i][0];
    MsgsAppend(n.cached, Tagged(s.consumer.i, m));
    PublishFrame(s.cache, WriterHead(s), Msgs(n.cached), m);
    assert Apply(s, PublishMove).cache == s.cache.(tail := Wrap(s.cache.tail, |Frame(m)|, |s.cache.area|));
  }

  lemma PublishMoveWriter(s: System, n: Network)
    requires Enabled(s, PublishMove) && Shape(s, n) && ConsumerOk(s, n) && WriterOk(s, n) && FileOk(s, n)
    ensures WriterOk(Apply(s, PublishMove), Record(s, n, PublishMove))
    ensures FileOk(Apply(s, PublishMove), Record(s, n, PublishMove))
  {
    var m := n.waiting[s.consumer.i][0];
    MsgsAppend(n.cached, Tagged(s.consumer.i, m));
    if s.writer.WLoop? || s.writer.WEmit? { UpToOfAppend(Msgs(n.cached), m, n.wahead); }
  }

  lemma PublishMoveConserves(s: System, n: Network, j: nat)
    requires Enabled(s, PublishMove) && Shape(s, n) && ConsumerOk(s, n) && Conserved(n, j)
    ensures Conserved(Record(s, n, PublishMove), j)
  {
    var i, n' := s.consumer.i, Record(s, n, PublishMove);
    RearJoins(n.cached, Tagged(i, n.waiting[i][0]), Waiting(n, j), j);
    SameSum(Of(n.written, j), Of(n.cached, j), Waiting(n, j), Of(n'.cached, j), Waiting(n', j));
  }

  lemma {:induction false} SameSum(w: seq<Msg>, a: seq<Msg>, b: seq<Msg>, c: seq<Msg>, d: seq<Msg>)
    requires a + b == c + d
    ensures w + a + b == w + c + d
  {
    assert w + a + b == w + (a + b);
    assert w + c + d == w + (c + d);
  }

  /** Moving a message takes it from the front of its ring to the rear of the cache. */
  lemma RearJoins(cached: seq<Tagged>, t: Tagged, waiting: seq<Msg>, j: nat)
    requires t.from == j ==> waiting != [] && waiting[0] == t.msg
    ensures Of(cached + [t], j) + (if t.from == j then waiting[1..] else waiting) == Of(cached, j) + waiting
  {
    OfAppend(cached, [t], j);
    OfOne(t, j);
  }

  lemma PublishMoveShape(s: System, n: Network)
    requires Enabled(s, PublishMove) && Shape(s, n)
    ensures Shape(Apply(s, PublishMove), Record(s, n, PublishMove))
  {
  }

  /** The other rings do not change. */
  lemma PublishMoveElsewhere(s: System, n: Network, j: nat)
    requires Enabled(s, PublishMove) && Shape(s, n) && RingHolds(s, n, j) && j != s.consumer.i
    ensures RingHolds(Apply(s, PublishMove), Record(s, n, PublishMove), j)
  {
  }

  lemma PublishMoveKeeps(s: System, n: Network)
    requires Inv(s, n) && Enabled(s, PublishMove)
    ensures Inv(Apply(s, PublishMove), Record(s, n, PublishMove))
  {
    var s', n', i := Apply(s, PublishMove), Record(s, n, PublishMove), s.consumer.i;
    assert RingHolds(s, n, i);
    PublishMoveShape(s, n);
    PublishMoveRing(s, n);
    PublishMoveCache(s, n);
    PublishMoveWriter(s, n);
    forall j | 0 <= j < |s.rings| ensures RingHolds(s', n', j) && Conserved(n', j) {
      assert RingHolds(s, n, j) && Conserved(n, j);
      if j != i { PublishMoveElsewhere(s, n, j); }
      PublishMoveConserves(s, n, j);
    }
  }

  lemma ReleaseKeeps(s: System, n: Network)
    requires Inv(s, n) && Enabled(s, Release)
    ensures Inv(Apply(s, Release), Record(s, n, Release))
  {
    var s', i := Apply(s, Release), s.consumer.i;
    forall j | 0 <= j < |s.rings| ensures RingHolds(s', n, j) {
      assert RingHolds(s, n, j);
      if j == i {
        ReleaseHead(s.rings[i], s.consumer.fh, n.waiting[i], ProducerWriting(s.producers[i]));
      }
    }
  }

  // ----- The writer -----

  /** A step of the writer leaves rings, producers and consumer alone. */
  lemma WriterSideKeeps(s: System, s': System, n: Network, n': Network)
    requires Inv(s, n) && s' == s.(cache := s'.cache, writer := s'.writer, file := s'.file)
    requires |s'.cache.area| == |s.cache.area| && s'.cache.tail == s.cache.tail
    requires n' == n.(cached := n'.cached, written := n'.written, wahead := n'.wahead)
    requires forall j | 0 <= j < |s.rings| :: Conserved(n', j)
    requires CacheHolds(s', n') && WriterOk(s', n') && FileOk(s', n')
    requires Shape(s', n')
    ensures Inv(s', n')
  {
    forall j | 0 <= j < |s.rings| ensures RingHolds(s', n', j) { assert RingHolds(s, n, j); }
  }

  lemma OpenKeeps(s: System, n: Network)
    requires Inv(s, n) && Enabled(s, Open)
    ensures Inv(Apply(s, Open), Record(s, n, Open))
  {
    var s', n' := Apply(s, Open), Record(s, n, Open);
    forall j | 0 <= j < |s.rings| ensures Conserved(n', j) { assert Conserved(n, j); }
    if s' != s {
      assert UpTo(Msgs(n.cached), |n.cached|) == Msgs(n.cached);
      assert Frames(Msgs(n.cached)) != [];
    }
    WriterSideKeeps(s, s', n, n');
  }

  lemma InspectKeeps(s: System, n: Network)
    requires Inv(s, n) && Enabled(s, Inspect)
    ensures Inv(Apply(s, Inspect), Record(s, n, Inspect))
  {
    ReadLength(s.cache, s.writer.h, Msgs(n.cached), ConsumerWriting(s.consumer, n));
    assert Take(Front(Msgs(n.cached)), 0) == [];
    WriterSideKeeps(s, Apply(s, Inspect), n, n);
  }

  lemma {:induction false} OneByteMore(file: bytes, done: bytes, m: bytes, k: nat)
    requires k < |m| && file == done + Take(m, k)
    ensures file + [m[k]] == done + Take(m, k + 1)
  {
    assert Take(m, k + 1) == Take(m, k) + [m[k]];
    assert done + Take(m, k) + [m[k]] == done + (Take(m, k) + [m[k]]);
  }

  lemma EmitByteFile(s: System, n: Network)
    requires Enabled(s, EmitByte) && CacheHolds(s, n) && WriterOk(s, n) && FileOk(s, n)
    ensures FileOk(Apply(s, EmitByte), n)
  {
    var w, m := s.writer, Msgs(n.cached)[0];
    ReadFront(s.cache, w.h, Msgs(n.cached), ConsumerWriting(s.consumer, n), 4 + w.k);
    assert Frame(m)[4 + w.k] == m[w.k];
    OneByteMore(s.file, Payloads(Msgs(n.written)), m, w.k);
  }

  lemma EmitByteKeeps(s: System, n: Network)
    requires Inv(s, n) && Enabled(s, EmitByte)
    ensures Inv(Apply(s, EmitByte), Record(s, n, EmitByte))
  {
    EmitByteFile(s, n);
    WriterSideKeeps(s, Apply(s, EmitByte), n, n);
  }

  lemma NextMessageCache(s: System, n: Network)
    requires Enabled(s, NextMessage) && CacheHolds(s, n) && WriterOk(s, n) && Shape(s, n)
    ensures CacheHolds(Apply(s, NextMessage), Record(s, n, NextMessage))
  {
    var w, q := s.writer, Msgs(n.cached);
    TakeFront(s.cache, w.h, q, ConsumerWriting(s.consumer, n));
    var p := Wrap(w.h, |Frame(q[0])|, |s.cache.area|);
    var s', n' := Apply(s, NextMessage), Record(s, n, NextMessage);
    assert s'.cache == s.cache && WriterHead(s') == p && Msgs(n'.cached) == q[1..];
    assert n'.waiting == n.waiting && s'.consumer == s.consumer;
  }

  lemma NextMessageReach(s: System, n: Network)
    requires Enabled(s, NextMessage) && WriterOk(s, n) && Shape(s, n)
    ensures WriterOk(Apply(s, NextMessage), Record(s, n, NextMessage))
  {
    var w, q := s.writer, Msgs(n.cached);
    assert Msgs(Rest(n.cached)) == q[1..];
    ReachShrinks(|s.cache.area|, w.h, w.t, q, n.wahead, 4 + w.len);
  }

  lemma NextMessageFile(s: System, n: Network)
    requires Enabled(s, NextMessage) && WriterOk(s, n) && FileOk(s, n) && Shape(s, n)
    ensures FileOk(Apply(s, NextMessage), Record(s, n, NextMessage))
  {
    var t := n.cached[0];
    MsgsAppend(n.written, t);
    PayloadsAppend(Msgs(n.written), [t.msg]);
    assert [t.msg][1..] == [];
    assert Take(t.msg, |t.msg|) == t.msg;
  }

  /** Writing a message moves it from the front of the cached to the end of the written ones. */
  lemma FrontMoves(written: seq<Tagged>, cached: seq<Tagged>, j: nat)
    requires cached != []
    ensures Of(written + [cached[0]], j) + Of(cached[1..], j) == Of(written, j) + Of(cached, j)
  {
    var one := Of([cached[0]], j);
    OfAppend(written, [cached[0]], j);
    OfOne(cached[0], j);
    assert Of(cached, j) == one + Of(cached[1..], j);
  }

  lemma NextMessageKeeps(s: System, n: Network)
    requires Inv(s, n) && Enabled(s, NextMessage)
    ensures Inv(Apply(s, NextMessage), Record(s, n, NextMessage))
  {
    NextMessageCache(s, n);
    NextMessageReach(s, n);
    NextMessageFile(s, n);
    forall j | 0 <= j < |s.rings| ensures Conserved(Record(s, n, NextMessage), j) {
      assert Conserved(n, j);
      FrontMoves(n.written, n.cached, j);
    }
    WriterSideKeeps(s, Apply(s, NextMessage), n, Record(s, n, NextMessage));
  }

  lemma CloseKeeps(s: System, n: Network)
    requires Inv(s, n) && Enabled(s, Close)
    ensures Inv(Apply(s, Close), Record(s, n, Close))
  {
    ReleaseHead(s.cache, s.writer.h, Msgs(n.cached), ConsumerWriting(s.consumer, n));
    WriterSideKeeps(s, Apply(s, Close), n, n);
  }

  // ----- Runs -----

  lemma StepKeeps(s: System, n: Network, step: Step)
    requires Inv(s, n) && Enabled(s, step)
    ensures Inv(Apply(s, step), Record(s, n, step))
  {
    match step
    case Offer(i, m) => OfferKeeps(s, n, i, m);
    case CopyByte(i) => CopyByteKeeps(s, n, i);
    case Publish(i) => PublishKeeps(s, n, i);
    case Snapshot(i) => SnapshotKeeps(s, n, i);
    case Decide => DecideKeeps(s, n);
    case Measure => MeasureKeeps(s, n);
    case MoveByte => MoveByteKeeps(s, n);
    case PublishMove => PublishMoveKeeps(s, n);
    case Release => ReleaseKeeps(s, n);
    case Open => OpenKeeps(s, n);
    case Inspect => InspectKeeps(s, n);
    case EmitByte => EmitByteKeeps(s, n);
    case NextMessage => NextMessageKeeps(s, n);
    case Close => CloseKeeps(s, n);
  }

  ghost predicate EmptyRing(r: Ring) { |r.area| > 0 && r.head == 0 && r.tail == 0 }

  /** As set up before the threads start: empty rings, an empty cache and an empty file. */
  ghost predicate Init(s: System) {
    && |s.producers| == |s.rings| && s.consumer == CIdle(0) && s.writer.WIdle? && s.file == []
    && EmptyRing(s.cache) && forall i | 0 <= i < |s.rings| :: EmptyRing(s.rings[i]) && s.producers[i].PIdle?
  }

  function InitNet(s: System): Network {
    Network(seq(|s.rings|, _ => []), seq(|s.rings|, _ => []), [], [], 0, 0)
  }

  lemma InitHolds(s: System)
    requires Init(s)
    ensures Inv(s, InitNet(s))
  {
    assert View(s.cache.area, 0, 0) == [];
    forall i | 0 <= i < |s.rings| ensures RingHolds(s, InitNet(s), i) && Conserved(InitNet(s), i) {
      assert View(s.rings[i].area, 0, 0) == [];
    }
  }

  /** Any interleaving of steps, each enabled where it is taken. */
  predicate CanRun(s: System, steps: seq<Step>)
    decreases |steps|
  {
    steps == [] || (Enabled(s, steps[0]) && CanRun(Apply(s, steps[0]), steps[1..]))
  }

  function RunTo(s: System, steps: seq<Step>): System
    requires CanRun(s, steps)
    decreases |steps|
  {
    if steps == [] then s else RunTo(Apply(s, steps[0]), steps[1..])
  }

  function PublishedBy(s: System, step: Step, i: nat): seq<Msg>
    requires Enabled(s, step)
  {
    if step == Publish(i) then [s.producers[i].msg] else []
  }

  ghost predicate Extends(a: seq<seq<Msg>>, s: System, step: Step, b: seq<seq<Msg>>)
    requires Enabled(s, step)
  {
    |b| == |a| && forall i | 0 <= i < |a| :: b[i] == a[i] + PublishedBy(s, step, i)
  }

  lemma OneStep(s: System, n: Network, step: Step) returns (n': Network)
    requires Inv(s, n) && Enabled(s, step)
    ensures Inv(Apply(s, step), n') && Extends(n.accepted, s, step, n'.accepted)
  {
    n' := Record(s, n, step);
    RecordExtends(s, n, step);
    StepKeeps(s, n, step);
  }

  lemma RecordExtends(s: System, n: Network, step: Step)
    requires Shape(s, n) && Enabled(s, step)
    ensures Extends(n.accepted, s, step, Record(s, n, step).accepted)
  {
  }

  /** The messages that producer `i` published in a run. */
  function AcceptedBy(s: System, steps: seq<Step>, i: nat): seq<Msg>
    requires CanRun(s, steps)
    decreases |steps|
  {
    if steps == [] then [] else
      PublishedBy(s, steps[0], i) + AcceptedBy(Apply(s, steps[0]), steps[1..], i)
  }

  /** The messages accepted along a run have been added. */
  ghost predicate Grew(a: seq<seq<Msg>>, b: seq<seq<Msg>>, s: System, steps: seq<Step>)
    requires CanRun(s, steps)
  {
    |b| == |a| && forall i | 0 <= i < |a| :: b[i] == a[i] + AcceptedBy(s, steps, i)
  }

  lemma {:induction false} GrewOn(a: seq<seq<Msg>>, b: seq<seq<Msg>>, c: seq<seq<Msg>>, s: System, steps: seq<Step>)
    requires CanRun(s, steps) && steps != []
    requires Extends(a, s, steps[0], b) && Grew(b, c, Apply(s, steps[0]), steps[1..])
    ensures Grew(a, c, s, steps)
  {
  }

  lemma {:induction false} RunKeeps(s: System, n: Network, steps: seq<Step>) returns (n': Network)
    requires Inv(s, n) && CanRun(s, steps)
    ensures Inv(RunTo(s, steps), n') && Grew(n.accepted, n'.accepted, s, steps)
    decreases |steps|
  {
    n' := n;
    if steps != [] {
      var n1 := OneStep(s, n, steps[0]);
      n' := RunKeeps(Apply(s, steps[0]), n1, steps[1..]);
      GrewOn(n.accepted, n1.accepted, n'.accepted, s, steps);
    }
  }

  /** The bytes between a private head and the tail. */
  ghost function Held(r: Ring, head: nat): bytes
    requires head < |r.area| && r.tail < |r.area|
  {
    View(r.area, head, Used(|r.area|, head, r.tail))
  }

  /** What the shared memory and the file hold, in messages. */
  ghost predicate Accounts(s: System, written: seq<Tagged>, cached: seq<Tagged>, waiting: seq<seq<Msg>>) {
    && |waiting| == |s.rings| && FromProducers(written, |s.rings|) && FromProducers(cached, |s.rings|)
    && Payloads(Msgs(written)) <= s.file
    && (s.writer.WIdle? ==> s.file == Payloads(Msgs(written)))
    && s.file <= Payloads(Msgs(written)) + Payloads(Msgs(cached))
    && WriterHead(s) < |s.cache.area| && s.cache.tail < |s.cache.area|
    && Held(s.cache, WriterHead(s)) == Frames(Msgs(cached))
    && forall i | 0 <= i < |s.rings| ::
         && PrivateHead(s, i, s.rings[i]) < |s.rings[i].area| && s.rings[i].tail < |s.rings[i].area|
         && Held(s.rings[i], PrivateHead(s, i, s.rings[i])) == Frames(waiting[i])
  }

  /**
   * At every moment of every run, what each producer has had accepted is, in order: its
   * messages in the file, then those in the cache past the writer's private head, then
   * those in its ring past the consumer's private head. File and cache hold messages of these
   * producers only, so none is lost, repeated, invented, torn or out of order.
   */
  lemma EveryRunConserves(s: System, steps: seq<Step>)
    returns (written: seq<Tagged>, cached: seq<Tagged>, waiting: seq<seq<Msg>>)
    requires Init(s) && CanRun(s, steps)
    ensures Accounts(RunTo(s, steps), written, cached, waiting)
    ensures |waiting| == |s.rings| && FromProducers(written, |s.rings|) && FromProducers(cached, |s.rings|)
    ensures forall i | 0 <= i < |s.rings| ::
              AcceptedBy(s, steps, i) == Of(written, i) + Of(cached, i) + waiting[i]
  {
    InitHolds(s);
    var n := RunKeeps(s, InitNet(s), steps);
    var s' := RunTo(s, steps);
    written, cached, waiting := n.written, n.cached, n.waiting;
    FileIsPrefix(s', n);
    forall i | 0 <= i < |s'.rings|
      ensures PrivateHead(s', i, s'.rings[i]) < |s'.rings[i].area| && s'.rings[i].tail < |s'.rings[i].area|
      ensures Held(s'.rings[i], PrivateHead(s', i, s'.rings[i])) == Frames(waiting[i])
    {
      assert RingHolds(s', n, i);
    }
    forall i | 0 <= i < |s.rings|
      ensures AcceptedBy(s, steps, i) == Of(written, i) + Of(cached, i) + waiting[i]
    {
      assert Conserved(n, i);
      assert n.accepted[i] == [] + AcceptedBy(s, steps, i);
    }
  }

  lemma FileIsPrefix(s: System, n: Network)
    requires FileOk(s, n) && WriterOk(s, n)
    ensures Payloads(Msgs(n.written)) <= s.file <= Payloads(Msgs(n.written)) + Payloads(Msgs(n.cached))
  {
    if s.writer.WEmit? {
      var m := Front(Msgs(n.cached));
      assert Take(m, s.writer.k) <= m <= Payloads(Msgs(n.cached));
    }
  }

  /** How many messages the first `k` producers have in the list. */
  function Counted(ts: seq<Tagged>, k: nat): nat { if k == 0 then 0 else Counted(ts, k - 1) + |Of(ts, k - 1)| }

  lemma {:induction false} OfTail(ts: seq<Tagged>, rest: seq<Tagged>, i: nat)
    requires ts != [] && rest == ts[1..]
    ensures |Of(ts, i)| == |Of(rest, i)| + if ts[0].from == i then 1 else 0
  {
  }

  lemma {:induction false} CountedTail(ts: seq<Tagged>, rest: seq<Tagged>, k: nat)
    requires ts != [] && rest == ts[1..]
    ensures Counted(ts, k) == Counted(rest, k) + if ts[0].from < k then 1 else 0
  {
    if k > 0 {
      OfTail(ts, rest, k - 1);
      CountedTail(ts, rest, k - 1);
    }
  }

  /** Messages that come from `k` producers are all accounted for by what each of them has in the list. */
  lemma {:induction false} AllCounted(ts: seq<Tagged>, k: nat)
    requires FromProducers(ts, k)
    ensures Counted(ts, k) == |ts|
  {
    if ts == [] {
      NoneCounted(k);
    } else {
      assert ts[0] in ts;
      CountedTail(ts, ts[1..], k);
      AllCounted(ts[1..], k);
    }
  }

  lemma {:induction false} NoneCounted(k: nat)
    ensures Counted([], k) == 0
  {
    if k > 0 { NoneCounted(k - 1); }
  }

  /** Once everything is drained and all threads rest, the file holds all that was accepted. */
  lemma DrainedRun(s: System, steps: seq<Step>) returns (written: seq<Tagged>)
    requires Init(s) && CanRun(s, steps)
    requires var e := RunTo(s, steps);
             && e.consumer.CIdle? && e.writer.WIdle? && e.cache.head == e.cache.tail
             && forall i | 0 <= i < |e.rings| :: e.rings[i].head == e.rings[i].tail
    ensures RunTo(s, steps).file == Payloads(Msgs(written)) && FromProducers(written, |s.rings|)
    ensures forall i | 0 <= i < |s.rings| :: AcceptedBy(s, steps, i) == Of(written, i)
  {
    var cached, waiting;
    written, cached, waiting := EveryRunConserves(s, steps);
    var e := RunTo(s, steps);
    assert Held(e.cache, e.cache.head) == [];
    NoFrames(Msgs(cached));
    forall i | 0 <= i < |s.rings| ensures AcceptedBy(s, steps, i) == Of(written, i) {
      assert Held(e.rings[i], e.rings[i].head) == [];
      NoFrames(waiting[i]);
    }
  }

  lemma NoFrames(ms: seq<Msg>)
    requires Frames(ms) == []
    ensures ms == []
  {
  }
}
