/**
 * What can reach the file. A message whose frame does not fit in the empty cache would stay in
 * its ring and hold up the messages behind it; all others can be drained from every state. No
 * ring that is at most as large as the cache lets such a message in.
 */
module AlogDrain {
  import opened AlogRing
  import opened AlogChannel
  import opened AlogPipeline
  import opened AlogPipelineProof

  /** The frame fits in an empty cache of this size. */
  predicate Passable(size: nat, m: Msg) { |Frame(m)| + 1 < size }

  /** How many messages come before the first one that is not passable. */
  function PassLen(size: nat, q: seq<Msg>): (n: nat)
    ensures n <= |q| && (n < |q| ==> !Passable(size, q[n]))
    ensures forall k | 0 <= k < n :: Passable(size, q[k])
  {
    if q == [] || !Passable(size, q[0]) then 0 else 1 + PassLen(size, q[1..])
  }

  lemma {:induction false} PassLenIs(size: nat, q: seq<Msg>, r: seq<Msg>)
    requires forall k | 0 <= k < |q| :: Passable(size, q[k])
    requires r == [] || !Passable(size, r[0])
    ensures PassLen(size, q + r) == |q|
  {
    if q == [] {
      assert q + r == r;
    } else {
      assert (q + r)[1..] == q[1..] + r;
      PassLenIs(size, q[1..], r);
    }
  }

  // ----- Nothing else gets past the consumer -----

  ghost predicate AllPassable(size: nat, ts: seq<Tagged>) { forall k: nat | k < |ts| :: Passable(size, ts[k].msg) }

  /** Only passable messages are cached or written, and only such a message is being copied. */
  ghost predicate Fits(s: System, n: Network) {
    && AllPassable(|s.cache.area|, n.cached) && AllPassable(|s.cache.area|, n.written)
    && (s.consumer.CCopy? ==> s.consumer.len + 1 < |s.cache.area|)
  }

  lemma StepFits(s: System, n: Network, step: Step)
    requires Shape(s, n) && ConsumerOk(s, n) && Fits(s, n) && Enabled(s, step)
    ensures Fits(Apply(s, step), Record(s, n, step)) && |Apply(s, step).cache.area| == |s.cache.area|
  {
  }

  // ----- What a ring has let in -----

  ghost predicate AllMessages(size: nat, q: seq<Msg>) { forall k: nat | k < |q| :: Passable(size, q[k]) }

  /** What ring `i` has accepted, and what is being copied into it, would fit in a cache of its size. */
  ghost predicate LetIn(s: System, n: Network, i: nat) {
    && i < |s.rings| && i < |s.producers| && i < |n.accepted|
    && AllMessages(|s.rings[i].area|, n.accepted[i])
    && (s.producers[i].PCopy? ==> Passable(|s.rings[i].area|, s.producers[i].msg))
  }

  lemma StepShape(s: System, n: Network, step: Step)
    requires Shape(s, n) && Enabled(s, step)
    ensures Shape(Apply(s, step), Record(s, n, step)) && |Apply(s, step).rings| == |s.rings|
  {
  }

  lemma StepLetsIn(s: System, n: Network, step: Step, i: nat)
    requires Shape(s, n) && Enabled(s, step) && LetIn(s, n, i)
    ensures LetIn(Apply(s, step), Record(s, n, step), i) && |Apply(s, step).rings[i].area| == |s.rings[i].area|
  {
  }

  /** Every ring is at most as large as the cache. */
  ghost predicate RoomyCache(s: System) { forall i: nat | i < |s.rings| :: |s.rings[i].area| <= |s.cache.area| }

  lemma {:induction false} RunLetsIn(s: System, n: Network, steps: seq<Step>, i: nat)
    requires Shape(s, n) && CanRun(s, steps) && LetIn(s, n, i)
    ensures AllMessages(|s.rings[i].area|, n.accepted[i] + AcceptedBy(s, steps, i))
    decreases |steps|
  {
    if steps == [] {
      assert n.accepted[i] + AcceptedBy(s, steps, i) == n.accepted[i];
    } else {
      var n1 := Record(s, n, steps[0]);
      RecordExtends(s, n, steps[0]);
      StepShape(s, n, steps[0]);
      StepLetsIn(s, n, steps[0], i);
      RunLetsIn(Apply(s, steps[0]), n1, steps[1..], i);
      assert n1.accepted[i] + AcceptedBy(Apply(s, steps[0]), steps[1..], i) == n.accepted[i] + AcceptedBy(s, steps, i);
    }
  }

  /** If no ring is larger than the cache, every accepted message is passable. */
  lemma {:induction false} AllAcceptedPass(s: System, steps: seq<Step>, i: nat)
    requires Init(s) && CanRun(s, steps) && RoomyCache(s) && i < |s.rings|
    ensures PassLen(|s.cache.area|, AcceptedBy(s, steps, i)) == |AcceptedBy(s, steps, i)|
  {
    InitHolds(s);
    var q := AcceptedBy(s, steps, i);
    RunLetsIn(s, InitNet(s), steps, i);
    assert InitNet(s).accepted[i] + q == q;
    forall k: nat | k < |q| ensures Passable(|s.cache.area|, q[k]) {
      assert Passable(|s.rings[i].area|, q[k]);
    }
  }

  // ----- A measure -----

  function Total(waiting: seq<seq<Msg>>, k: nat): nat
    requires k <= |waiting|
  {
    if k == 0 then 0 else Total(waiting, k - 1) + |waiting[k - 1]|
  }

  lemma {:induction false} TotalShrinks(w: seq<seq<Msg>>, i: nat, q: seq<Msg>, k: nat)
    requires i < |w| && k <= |w| && |q| < |w[i]|
    ensures Total(w[i := q], k) == if k <= i then Total(w, k) else Total(w, k) - |w[i]| + |q|
  {
    if k > 0 { TotalShrinks(w, i, q, k - 1); }
  }

  /** Steps of the writer until the message in hand is written. */
  function WriterRank(w: Writer): nat { match w case WFinish(_) => 3 case WIdle => 2 case WLoop(_, _) => 1 case _ => 0 }

  function WriterLeft(w: Writer): nat { if w.WEmit? && w.k <= w.len then w.len - w.k else 0 }

  /** Whether a step of the consumer leads on to a copy. */
  predicate WillCopy(s: System) { Enabled(s, Measure) && Apply(s, Measure).consumer.CCopy? }

  /** Steps of the consumer until a message is moved; first it has to finish what leads to none. */
  function ConsumerRank(s: System): nat {
    match s.consumer
    case CCopy(_, _, _, _, _, _, _) => 2
    case CLoop(_, _, _, _, _) => if WillCopy(s) then 3 else 7
    case CLook(_, _, _) =>
      if !Enabled(s, Decide) || Apply(s, Decide).consumer.CIdle? then 8
      else if WillCopy(Apply(s, Decide)) then 4 else 9
    case CIdle(_) => 5
    case CFinish(_, _) => 6
  }

  function ConsumerLeft(c: Consumer): nat { if c.CCopy? && c.k <= c.len then c.len - c.k else 0 }

  /** Ring empty, or its first message cannot pass. */
  predicate Stopped(size: nat, q: seq<Msg>) { q == [] || !Passable(size, q[0]) }

  /** How many of the next `k` rings are passed before one that is not stopped. */
  function Distance(size: nat, waiting: seq<seq<Msg>>, from: nat, k: nat): nat
    decreases k
  {
    if k == 0 || from >= |waiting| || !Stopped(size, waiting[from]) then 0
    else 1 + Distance(size, waiting, NextRing(from, |waiting|), k - 1)
  }

  /** Rings in turn from `from` up to `j`. */
  function Turns(from: nat, j: nat, n: nat): int { if from <= j then j - from else j - from + n }

  lemma {:induction false} DistanceEnough(size: nat, waiting: seq<seq<Msg>>, from: nat, j: nat, k: nat, l: nat)
    requires from < |waiting| && j < |waiting| && !Stopped(size, waiting[j]) && Turns(from, j, |waiting|) < k <= l
    ensures Distance(size, waiting, from, k) == Distance(size, waiting, from, l)
    decreases k
  {
    if Stopped(size, waiting[from]) {
      DistanceEnough(size, waiting, NextRing(from, |waiting|), j, k - 1, l - 1);
    }
  }

  /** A stopped ring is one of those that are passed. */
  lemma {:induction false} OneRingOn(size: nat, waiting: seq<seq<Msg>>, from: nat, j: nat)
    requires from < |waiting| && Stopped(size, waiting[from]) && j < |waiting| && !Stopped(size, waiting[j])
    ensures var n := |waiting|;
            Distance(size, waiting, from, n) == 1 + Distance(size, waiting, NextRing(from, n), n)
  {
    var n := |waiting|;
    DistanceEnough(size, waiting, NextRing(from, n), j, n - 1, n);
  }

  /** Rings that the consumer passes before it moves a message. */
  function RingsLeft(s: System, n: Network): nat {
    var c, size, k := s.consumer, |s.cache.area|, |n.waiting|;
    if c.CIdle? then Distance(size, n.waiting, c.next, k)
    else if ConsumerRank(s) <= 4 then 0
    else Distance(size, n.waiting, NextRing(c.i, k), k)
  }

  /** Messages waiting, messages cached and what is left for the writer, in this order: less than before. */
  ghost predicate WriterDrops(s: System, n: Network, s': System, n': Network) {
    var t, t' := Total(n.waiting, |n.waiting|), Total(n'.waiting, |n'.waiting|);
    t' < t || (t' == t &&
      (|n'.cached| < |n.cached| || (|n'.cached| == |n.cached| &&
        (WriterRank(s'.writer) < WriterRank(s.writer) || (WriterRank(s'.writer) == WriterRank(s.writer) &&
          WriterLeft(s'.writer) < WriterLeft(s.writer))))))
  }

  ghost predicate WriterSame(s: System, n: Network, s': System, n': Network) {
    && Total(n'.waiting, |n'.waiting|) == Total(n.waiting, |n.waiting|) && |n'.cached| == |n.cached|
    && WriterRank(s'.writer) == WriterRank(s.writer) && WriterLeft(s'.writer) == WriterLeft(s.writer)
  }

  /** Rings left for the consumer and what is left for it on this one. */
  ghost predicate ConsumerDrops(s: System, n: Network, s': System, n': Network) {
    RingsLeft(s', n') < RingsLeft(s, n) || (RingsLeft(s', n') == RingsLeft(s, n) &&
      (ConsumerRank(s') < ConsumerRank(s) || (ConsumerRank(s') == ConsumerRank(s) &&
        ConsumerLeft(s'.consumer) < ConsumerLeft(s.consumer))))
  }

  ghost predicate Drops(s: System, n: Network, s': System, n': Network) {
    WriterDrops(s, n, s', n') || (WriterSame(s, n, s', n') && ConsumerDrops(s, n, s', n'))
  }

  // ----- A schedule -----

  predicate ByProducer(step: Step) { step.Offer? || step.CopyByte? || step.Publish? }

  datatype Thread = ConsumerThread | WriterThread

  /** The step that a thread takes when it is its turn. */
  function NextStep(s: System, who: Thread): Step {
    if who.ConsumerThread? then
      match s.consumer
      case CIdle(i) => Snapshot(i)
      case CLook(_, _, _) => Decide
      case CLoop(_, _, _, _, _) => Measure
      case CCopy(_, _, _, _, _, len, k) => if k < len then MoveByte else PublishMove
      case CFinish(_, _) => Release
    else
      match s.writer
      case WIdle => Open
      case WLoop(_, _) => Inspect
      case WEmit(_, _, len, k) => if k < len then EmitByte else NextMessage
      case WFinish(_) => Close
  }

  /** Nothing is in flight, and nothing that waits can go on. */
  ghost predicate Settled(s: System, n: Network) {
    && s.writer.WIdle? && s.consumer.CIdle? && n.cached == []
    && forall i: nat | i < |n.waiting| :: Stopped(|s.cache.area|, n.waiting[i])
  }

  lemma {:induction false} MsgsEmpty(ts: seq<Tagged>)
    ensures Frames(Msgs(ts)) == [] <==> ts == []
  {
  }

  /** With room in the cache, a look at a ring with a message leads to a copy of that message. */
  lemma {:induction false} LookCopies(s: System, n: Network, i: nat)
    requires Inv(s, n) && s.consumer == CIdle(i) && i < |n.waiting| && n.waiting[i] != []
    requires Used(|s.cache.area|, s.cache.head, s.cache.tail) + |Frame(n.waiting[i][0])| + 1 < |s.cache.area|
    ensures CanRun(s, [Snapshot(i), Decide, Measure])
    ensures var c := RunTo(s, [Snapshot(i), Decide, Measure]).consumer;
            c.CCopy? && c.i == i && c.len == |Frame(n.waiting[i][0])|
    ensures ConsumerRank(Apply(s, Snapshot(i))) == 4
  {
    assert RingHolds(s, n, i);
    var r, q := s.rings[i], n.waiting[i];
    assert Frames(q) != [];
    ReadLength(r, r.head, q, ProducerWriting(s.producers[i]));
    FullHasNoRoom(|s.cache.area|, s.cache.head, s.cache.tail);
    var s1 := Apply(s, Snapshot(i));
    var s2 := Apply(s1, Decide);
    assert s2.consumer == CLoop(i, r.head, r.tail, s.cache.head, s.cache.tail);
    assert WillCopy(s2);
    ThreeSteps(s, Snapshot(i), Decide, Measure);
  }

  lemma {:induction false} ThreeSteps(s: System, a: Step, b: Step, c: Step)
    requires Enabled(s, a) && Enabled(Apply(s, a), b) && Enabled(Apply(Apply(s, a), b), c)
    ensures CanRun(s, [a, b, c]) && RunTo(s, [a, b, c]) == Apply(Apply(Apply(s, a), b), c)
  {
    var s1 := Apply(s, a);
    var s2 := Apply(s1, b);
    assert [a, b, c][1..] == [b, c] && [b, c][1..] == [c] && [c][1..] == [];
    assert CanRun(s2, [c]) && RunTo(s2, [c]) == Apply(s2, c);
    assert CanRun(s1, [b, c]) && RunTo(s1, [b, c]) == Apply(s2, c);
  }

  /** With an empty cache, a look at a ring with a passable message leads to a copy. */
  lemma {:induction false} FreshLook(s: System, n: Network, i: nat)
    requires Inv(s, n) && s.writer.WIdle? && n.cached == [] && s.consumer == CIdle(i)
    requires i < |n.waiting| && !Stopped(|s.cache.area|, n.waiting[i])
    ensures Enabled(s, Snapshot(i)) && ConsumerRank(Apply(s, Snapshot(i))) == 4
  {
    assert s.cache.head == s.cache.tail;
    LookCopies(s, n, i);
  }

  /** Whenever something is left to write, the writer can go on. */
  lemma {:induction false} WriterGoesOn(s: System, n: Network)
    requires Inv(s, n) && (!s.writer.WIdle? || n.cached != [])
    ensures var step := NextStep(s, WriterThread);
            Enabled(s, step) && WriterDrops(s, n, Apply(s, step), Record(s, n, step))
  {
    if s.writer.WIdle? { MsgsEmpty(n.cached); }
  }

  /** An idle consumer looks at the next ring: with a message to move there, or one ring nearer to such a ring. */
  lemma {:induction false} LooksOn(s: System, n: Network)
    requires Inv(s, n) && s.writer.WIdle? && n.cached == [] && !Settled(s, n) && s.consumer.CIdle?
    ensures var step := Snapshot(s.consumer.next);
            Enabled(s, step) && Drops(s, n, Apply(s, step), Record(s, n, step))
  {
    var i, size := s.consumer.next, |s.cache.area|;
    var j: nat :| j < |n.waiting| && !Stopped(size, n.waiting[j]);
    if Stopped(size, n.waiting[i]) {
      OneRingOn(size, n.waiting, i, j);
    } else {
      FreshLook(s, n, i);
    }
  }

  /** Whenever nothing is left to write and something can be moved, the consumer can go on. */
  lemma {:induction false} ConsumerGoesOn(s: System, n: Network)
    requires Inv(s, n) && s.writer.WIdle? && n.cached == [] && !Settled(s, n)
    ensures var step := NextStep(s, ConsumerThread);
            Enabled(s, step) && Drops(s, n, Apply(s, step), Record(s, n, step))
  {
    match s.consumer
    case CIdle(_) => LooksOn(s, n);
    case CCopy(i, _, _, _, _, _, _) => TotalShrinks(n.waiting, i, Rest(n.waiting[i]), |n.waiting|);
    case _ =>
  }

  /** From every state the threads of consumer and writer can go on until all is settled. */
  lemma {:induction false} Drain(s: System, n: Network) returns (steps: seq<Step>, n': Network)
    requires Inv(s, n) && Fits(s, n)
    ensures CanRun(s, steps) && forall step | step in steps :: !ByProducer(step)
    ensures Inv(RunTo(s, steps), n') && Fits(RunTo(s, steps), n') && Settled(RunTo(s, steps), n')
    ensures n'.accepted == n.accepted && |RunTo(s, steps).cache.area| == |s.cache.area|
    decreases Total(n.waiting, |n.waiting|), |n.cached|, WriterRank(s.writer), WriterLeft(s.writer),
              RingsLeft(s, n), ConsumerRank(s), ConsumerLeft(s.consumer)
  {
    steps, n' := [], n;
    if !Settled(s, n) {
      var step, s1, n1 := DrainStep(s, n);
      var rest;
      rest, n' := Drain(s1, n1);
      steps := [step] + rest;
      OneMore(s, step, s1, rest);
    }
  }

  lemma {:induction false} OneMore(s: System, step: Step, s1: System, rest: seq<Step>)
    requires Enabled(s, step) && s1 == Apply(s, step) && CanRun(s1, rest)
    ensures CanRun(s, [step] + rest) && RunTo(s, [step] + rest) == RunTo(s1, rest)
  {
    assert ([step] + rest)[1..] == rest;
  }

  /** A step of one of the two threads that brings the end nearer. */
  lemma {:induction false} DrainStep(s: System, n: Network) returns (step: Step, s': System, n': Network)
    requires Inv(s, n) && Fits(s, n) && !Settled(s, n)
    ensures Enabled(s, step) && s' == Apply(s, step) && !ByProducer(step)
    ensures Inv(s', n') && Fits(s', n') && Drops(s, n, s', n')
    ensures n'.accepted == n.accepted && |s'.cache.area| == |s.cache.area|
  {
    if s.writer.WIdle? && n.cached == [] {
      step := NextStep(s, ConsumerThread);
      ConsumerGoesOn(s, n);
    } else {
      step := NextStep(s, WriterThread);
      WriterGoesOn(s, n);
    }
    s', n' := Apply(s, step), Record(s, n, step);
    StepKeeps(s, n, step);
    StepFits(s, n, step);
  }

  // ----- Runs -----

  lemma {:induction false} OneStepFits(s: System, n: Network, step: Step) returns (n': Network)
    requires Inv(s, n) && Fits(s, n) && Enabled(s, step)
    ensures Inv(Apply(s, step), n') && Fits(Apply(s, step), n') && Extends(n.accepted, s, step, n'.accepted)
    ensures |Apply(s, step).cache.area| == |s.cache.area|
  {
    n' := Record(s, n, step);
    RecordExtends(s, n, step);
    StepKeeps(s, n, step);
    StepFits(s, n, step);
  }

  lemma {:induction false} RunFits(s: System, n: Network, steps: seq<Step>) returns (n': Network)
    requires Inv(s, n) && Fits(s, n) && CanRun(s, steps)
    ensures Inv(RunTo(s, steps), n') && Fits(RunTo(s, steps), n') && Grew(n.accepted, n'.accepted, s, steps)
    ensures |RunTo(s, steps).cache.area| == |s.cache.area|
    decreases |steps|
  {
    n' := n;
    if steps != [] {
      var n1 := OneStepFits(s, n, steps[0]);
      n' := RunFits(Apply(s, steps[0]), n1, steps[1..]);
      GrewOn(n.accepted, n1.accepted, n'.accepted, s, steps);
    }
  }

  lemma {:induction false} RunOn(s: System, a: seq<Step>, b: seq<Step>)
    requires CanRun(s, a) && CanRun(RunTo(s, a), b) && forall step | step in b :: !ByProducer(step)
    ensures CanRun(s, a + b) && RunTo(s, a + b) == RunTo(RunTo(s, a), b)
    ensures forall i: nat :: AcceptedBy(s, a + b, i) == AcceptedBy(s, a, i)
    decreases |a|
  {
    if a == [] {
      assert a + b == b;
      NothingAccepted(s, b);
    } else {
      assert (a + b)[1..] == a[1..] + b;
      RunOn(Apply(s, a[0]), a[1..], b);
    }
  }

  lemma {:induction false} NothingAccepted(s: System, b: seq<Step>)
    requires CanRun(s, b) && forall step | step in b :: !ByProducer(step)
    ensures forall i: nat :: AcceptedBy(s, b, i) == []
    decreases |b|
  {
    if b != [] {
      assert b[0] in b;
      NothingAccepted(Apply(s, b[0]), b[1..]);
    }
  }

  lemma {:induction false} OfPassable(size: nat, ts: seq<Tagged>, i: nat, k: nat)
    requires AllPassable(size, ts) && k < |Of(ts, i)|
    ensures Passable(size, Of(ts, i)[k])
  {
    var first := if ts[0].from == i then 1 else 0;
    assert Passable(size, ts[0].msg);
    if k >= first {
      assert AllPassable(size, ts[1..]) by {
        forall j: nat | j < |ts[1..]| ensures Passable(size, ts[1..][j].msg) { assert ts[1..][j] == ts[j + 1]; }
      }
      OfPassable(size, ts[1..], i, k - first);
    }
  }

  /** The messages of producer `i` that have been written are passable and the first it had accepted. */
  lemma {:induction false} WrittenPass(s: System, n: Network, i: nat)
    requires Inv(s, n) && Fits(s, n) && i < |s.rings|
    ensures |Of(n.written, i)| <= PassLen(|s.cache.area|, n.accepted[i])
    ensures Of(n.written, i) <= n.accepted[i]
  {
    assert Conserved(n, i);
    var w, q, size := Of(n.written, i), n.accepted[i], |s.cache.area|;
    assert w <= q;
    if PassLen(size, q) < |w| { OfPassable(size, n.written, i, PassLen(size, q)); }
  }

  /** With nothing cached and the ring stopped, they are all that came before the first that is not. */
  lemma {:induction false} SettledWritten(s: System, n: Network, i: nat)
    requires Inv(s, n) && Fits(s, n) && i < |s.rings| && n.cached == [] && Stopped(|s.cache.area|, n.waiting[i])
    ensures Of(n.written, i) == n.accepted[i][..PassLen(|s.cache.area|, n.accepted[i])]
  {
    assert Conserved(n, i);
    var w, size := Of(n.written, i), |s.cache.area|;
    assert n.accepted[i] == w + n.waiting[i];
    forall k | 0 <= k < |w| ensures Passable(size, w[k]) { OfPassable(size, n.written, i, k); }
    PassLenIs(size, w, n.waiting[i]);
  }

  lemma {:induction false} InitFits(s: System)
    requires Init(s)
    ensures Inv(s, InitNet(s)) && Fits(s, InitNet(s))
  {
    InitHolds(s);
  }

  /** In no run does the file hold a message of a producer that is not passable, or that came behind one. */
  lemma {:induction false} EveryRunStops(s: System, steps: seq<Step>) returns (written: seq<Tagged>)
    requires Init(s) && CanRun(s, steps)
    ensures Payloads(Msgs(written)) <= RunTo(s, steps).file && FromProducers(written, |s.rings|)
    ensures RunTo(s, steps).writer.WIdle? ==> RunTo(s, steps).file == Payloads(Msgs(written))
    ensures forall i | 0 <= i < |s.rings| ::
              && Of(written, i) <= AcceptedBy(s, steps, i)
              && |Of(written, i)| <= PassLen(|s.cache.area|, AcceptedBy(s, steps, i))
  {
    var n := RunFromInit(s, steps);
    written := n.written;
    forall i | 0 <= i < |s.rings|
      ensures Of(written, i) <= AcceptedBy(s, steps, i)
      ensures |Of(written, i)| <= PassLen(|s.cache.area|, AcceptedBy(s, steps, i))
    {
      WrittenPass(RunTo(s, steps), n, i);
    }
  }

  /**
   * After any run, consumer and writer can go on, without a further step of a producer, until the
   * file holds of each producer exactly the messages before the first that is not passable.
   */
  lemma {:induction false} EveryRunDrains(s: System, steps: seq<Step>) returns (more: seq<Step>, written: seq<Tagged>)
    requires Init(s) && CanRun(s, steps)
    ensures CanRun(s, steps + more) && forall step | step in more :: !ByProducer(step)
    ensures RunTo(s, steps + more).file == Payloads(Msgs(written)) && FromProducers(written, |s.rings|)
    ensures forall i | 0 <= i < |s.rings| ::
              var q := AcceptedBy(s, steps, i); Of(written, i) == q[..PassLen(|s.cache.area|, q)]
  {
    var n;
    more, n := DrainedState(s, steps);
    written := n.written;
    forall i | 0 <= i < |s.rings|
      ensures var q := AcceptedBy(s, steps, i); Of(written, i) == q[..PassLen(|s.cache.area|, q)]
    {
      SettledWritten(RunTo(s, steps + more), n, i);
    }
  }

  /** The network beside a run that goes on until all is settled. */
  lemma {:induction false} DrainedState(s: System, steps: seq<Step>) returns (more: seq<Step>, n: Network)
    requires Init(s) && CanRun(s, steps)
    ensures CanRun(s, steps + more) && forall step | step in more :: !ByProducer(step)
    ensures var e := RunTo(s, steps + more);
            && Inv(e, n) && Fits(e, n) && Settled(e, n)
            && |e.rings| == |s.rings| && |e.cache.area| == |s.cache.area|
    ensures |n.accepted| == |s.rings| && forall i | 0 <= i < |s.rings| :: n.accepted[i] == AcceptedBy(s, steps, i)
  {
    var n0 := RunFromInit(s, steps);
    more, n := Drain(RunTo(s, steps), n0);
    RunOn(s, steps, more);
  }

  lemma {:induction false} RunFromInit(s: System, steps: seq<Step>) returns (n: Network)
    requires Init(s) && CanRun(s, steps)
    ensures Inv(RunTo(s, steps), n) && Fits(RunTo(s, steps), n) && |RunTo(s, steps).cache.area| == |s.cache.area|
    ensures |n.accepted| == |s.rings| && forall i | 0 <= i < |s.rings| :: n.accepted[i] == AcceptedBy(s, steps, i)
  {
    InitFits(s);
    n := RunFits(s, InitNet(s), steps);
    forall i | 0 <= i < |s.rings| ensures n.accepted[i] == AcceptedBy(s, steps, i) {
      assert n.accepted[i] == [] + AcceptedBy(s, steps, i);
    }
  }

  /** With rings no larger than the cache, every run can go on until the file holds all that was accepted. */
  lemma {:induction false} EveryRunDrainsAll(s: System, steps: seq<Step>)
    returns (more: seq<Step>, written: seq<Tagged>)
    requires Init(s) && CanRun(s, steps) && RoomyCache(s)
    ensures CanRun(s, steps + more) && forall step | step in more :: !ByProducer(step)
    ensures RunTo(s, steps + more).file == Payloads(Msgs(written)) && FromProducers(written, |s.rings|)
    ensures forall i | 0 <= i < |s.rings| :: Of(written, i) == AcceptedBy(s, steps, i)
  {
    more, written := EveryRunDrains(s, steps);
    forall i | 0 <= i < |s.rings| ensures Of(written, i) == AcceptedBy(s, steps, i) {
      AllAcceptedPass(s, steps, i);
    }
  }
}
