/**
 * Draining under every fair schedule: however the threads of consumer and writer take turns, as long
 * as each is always given another turn, the file comes to hold all that can pass, and then stays.
 */
module AlogFair {
  import opened AlogRing
  import opened AlogPipeline
  import opened AlogPipelineProof
  import opened AlogDrain

  // ----- Fair schedules of two threads -----

  /** The thread whose turn it is. */
  type Schedule = nat -> Thread

  ghost predicate ComesAfter(sched: Schedule, who: Thread, k: nat) { exists j: nat :: k <= j && sched(j) == who }

  /** Each thread is always given another turn. */
  ghost predicate Fair(sched: Schedule) { forall who, k: nat :: ComesAfter(sched, who, k) }

  lemma {:induction false} NextTurn(sched: Schedule, who: Thread, k: nat) returns (j: nat)
    requires Fair(sched)
    ensures k <= j && sched(j) == who
  {
    assert ComesAfter(sched, who, k);
    j :| k <= j && sched(j) == who;
  }

  /** Taking turns strictly is fair. */
  lemma {:induction false} AlternationIsFair()
    ensures Fair((k: nat) => if k % 2 == 0 then ConsumerThread else WriterThread)
  {
    var sched := (k: nat) => if k % 2 == 0 then ConsumerThread else WriterThread;
    forall who, k: nat ensures ComesAfter(sched, who, k) {
      assert sched(2 * k) == ConsumerThread && sched(2 * k + 1) == WriterThread;
    }
  }

  /** The state before turn `until` of a schedule, from a state before turn `from`. */
  function Iterate<S>(turn: (S, Thread) -> S, s: S, sched: Schedule, from: nat, until: nat): S
    decreases until - from
  {
    if from >= until then s else Iterate(turn, turn(s, sched(from)), sched, from + 1, until)
  }

  lemma {:induction false} IterateOn<S>(
    turn: (S, Thread) -> S, s: S, sched: Schedule, from: nat, mid: nat, until: nat)
    requires from <= mid <= until
    ensures Iterate(turn, s, sched, from, until) == Iterate(turn, Iterate(turn, s, sched, from, mid), sched, mid, until)
    decreases mid - from
  {
    if from < mid { IterateOn(turn, turn(s, sched(from)), sched, from + 1, mid, until); }
  }

  /** What is left to do, compared from left to right. */
  datatype Rank = Rank(waiting: nat, cached: nat, stage: nat, bytes: nat, rings: nat, look: nat, copy: nat)

  predicate Less(a: Rank, b: Rank) {
    a.waiting < b.waiting || (a.waiting == b.waiting &&
      (a.cached < b.cached || (a.cached == b.cached &&
        (a.stage < b.stage || (a.stage == b.stage &&
          (a.bytes < b.bytes || (a.bytes == b.bytes &&
            (a.rings < b.rings || (a.rings == b.rings &&
              (a.look < b.look || (a.look == b.look && a.copy < b.copy)))))))))))
  }

  /** The awaited thread brings the end nearer; the other one does so too, or leaves what is left as it is. */
  ghost predicate Progress<S>(awaited: S -> Thread, rank: S -> Rank, s: S, who: Thread, s': S) {
    Less(rank(s'), rank(s)) || (who != awaited(s) && rank(s') == rank(s) && awaited(s') == awaited(s))
  }

  ghost predicate Progresses<S(!new)>(
    turn: (S, Thread) -> S, ok: S -> bool, ended: S -> bool, awaited: S -> Thread, rank: S -> Rank)
  {
    forall s, who :: ok(s) && !ended(s) ==> ok(turn(s, who)) && Progress(awaited, rank, s, who, turn(s, who))
  }

  /** Threads that progress come to an end under every fair schedule; `at` is a turn of the awaited thread. */
  lemma {:induction false} FairlyEnds<S(!new)>(
    turn: (S, Thread) -> S, ok: S -> bool, ended: S -> bool, awaited: S -> Thread, rank: S -> Rank,
    s: S, sched: Schedule, from: nat, at: nat) returns (until: nat)
    requires Progresses(turn, ok, ended, awaited, rank) && ok(s)
    requires Fair(sched) && from <= at && sched(at) == awaited(s)
    ensures from <= until && ended(Iterate(turn, s, sched, from, until))
    decreases rank(s).waiting, rank(s).cached, rank(s).stage, rank(s).bytes,
              rank(s).rings, rank(s).look, rank(s).copy, at - from
  {
    until := from;
    if !ended(s) {
      var s1 := turn(s, sched(from));
      assert Progress(awaited, rank, s, sched(from), s1);
      var at1 := at;
      if Less(rank(s1), rank(s)) { at1 := NextTurn(sched, awaited(s1), from + 1); }
      until := FairlyEnds(turn, ok, ended, awaited, rank, s1, sched, from + 1, at1);
    }
  }

  // ----- The turns of consumer and writer -----

  /** A consumer without rings has nothing to do in its turn. */
  function Turn(s: System, who: Thread): System {
    if Enabled(s, NextStep(s, who)) then Apply(s, NextStep(s, who)) else s
  }

  /** Turns leave nothing out: every step that is not a producer's is the turn of a thread. */
  lemma EveryStepIsATurn(s: System, step: Step) returns (who: Thread)
    requires Enabled(s, step) && !ByProducer(step)
    ensures Apply(s, step) == Turn(s, who)
  {
    who := if step.Snapshot? || step.Decide? || step.Measure? || step.MoveByte? || step.PublishMove? || step.Release?
           then ConsumerThread else WriterThread;
  }

  /** The system with the message queues that its bytes stand for. */
  datatype Watched = Watched(s: System, n: Network)

  function WatchedTurn(x: Watched, who: Thread): Watched {
    var step := NextStep(x.s, who);
    if Enabled(x.s, step) && |x.n.accepted| == |x.n.waiting| == |x.s.rings|
    then Watched(Apply(x.s, step), Record(x.s, x.n, step)) else x
  }

  ghost predicate Sound(x: Watched) { Inv(x.s, x.n) && Fits(x.s, x.n) }

  lemma {:induction false} TurnKeeps(x: Watched, who: Thread)
    requires Sound(x)
    ensures var x' := WatchedTurn(x, who);
            && Sound(x') && x'.s == Turn(x.s, who)
            && x'.n.accepted == x.n.accepted && |x'.s.cache.area| == |x.s.cache.area|
  {
    var step := NextStep(x.s, who);
    if Enabled(x.s, step) {
      StepKeeps(x.s, x.n, step);
      StepFits(x.s, x.n, step);
    }
  }

  /** Something is left to write. */
  ghost predicate Pending(x: Watched) { !x.s.writer.WIdle? || x.n.cached != [] }

  /** Nothing is left to write and nothing that waits can go on; the consumer may still be looking around. */
  ghost predicate Drained(x: Watched) {
    && !Pending(x)
    && forall i: nat | i < |x.n.waiting| :: Stopped(|x.s.cache.area|, x.n.waiting[i])
  }

  /** The thread whose turn has to come before the end is sure to get nearer. */
  ghost function Awaited(x: Watched): Thread { if Pending(x) then WriterThread else ConsumerThread }

  /** While something is left to write, it does not matter where the consumer is. */
  ghost function RankOf(x: Watched): Rank {
    var s, n, p := x.s, x.n, Pending(x);
    Rank(Total(n.waiting, |n.waiting|), |n.cached|, WriterRank(s.writer), WriterLeft(s.writer),
         if p then 0 else RingsLeft(s, n), if p then 0 else ConsumerRank(s), if p then 0 else ConsumerLeft(s.consumer))
  }

  lemma {:induction false} RankDrops(x: Watched, x': Watched)
    requires WriterDrops(x.s, x.n, x'.s, x'.n)
    ensures Less(RankOf(x'), RankOf(x))
  {
  }

  /** While the writer waits for its turn, a turn of the consumer takes nothing from it. */
  lemma {:induction false} ConsumerBetween(x: Watched)
    requires Inv(x.s, x.n)
    ensures var x' := WatchedTurn(x, ConsumerThread);
            WriterDrops(x.s, x.n, x'.s, x'.n) || (WriterSame(x.s, x.n, x'.s, x'.n) && Pending(x') == Pending(x))
  {
    if Enabled(x.s, PublishMove) { OneMoved(x); }
  }

  lemma {:induction false} OneMoved(x: Watched)
    requires Shape(x.s, x.n) && ConsumerOk(x.s, x.n) && Enabled(x.s, PublishMove)
    ensures WriterDrops(x.s, x.n, Apply(x.s, PublishMove), Record(x.s, x.n, PublishMove))
  {
    var i, waiting := x.s.consumer.i, x.n.waiting;
    TotalShrinks(waiting, i, Rest(waiting[i]), |waiting|);
  }

  /** With nothing to write, a turn of the writer changes nothing. */
  lemma {:induction false} WriterBetween(x: Watched)
    requires Inv(x.s, x.n) && !Pending(x)
    ensures WatchedTurn(x, WriterThread) == Watched(x.s, x.n.(wahead := 0))
  {
    MsgsEmpty(x.n.cached);
  }

  lemma {:induction false} WriterTurn(x: Watched)
    requires Inv(x.s, x.n) && Pending(x)
    ensures Less(RankOf(WatchedTurn(x, WriterThread)), RankOf(x))
  {
    WriterGoesOn(x.s, x.n);
    RankDrops(x, WatchedTurn(x, WriterThread));
  }

  lemma {:induction false} ConsumerTurn(x: Watched)
    requires Inv(x.s, x.n) && !Pending(x) && !Drained(x)
    ensures Less(RankOf(WatchedTurn(x, ConsumerThread)), RankOf(x))
  {
    ConsumerGoesOn(x.s, x.n);
    ConsumerBetween(x);
  }

  lemma {:induction false} OneTurn(x: Watched, who: Thread)
    requires Sound(x) && !Drained(x)
    ensures Progress(Awaited, RankOf, x, who, WatchedTurn(x, who))
  {
    if who.WriterThread? {
      if Pending(x) { WriterTurn(x); } else { WriterBetween(x); }
    } else {
      if Pending(x) { ConsumerBetween(x); } else { ConsumerTurn(x); }
    }
  }

  lemma {:induction false} PipelineProgresses()
    ensures Progresses(WatchedTurn, Sound, Drained, Awaited, RankOf)
  {
    forall x, who | Sound(x) && !Drained(x)
      ensures Sound(WatchedTurn(x, who)) && Progress(Awaited, RankOf, x, who, WatchedTurn(x, who))
    {
      TurnKeeps(x, who);
      OneTurn(x, who);
    }
  }

  lemma {:induction false} TurnsKeep(x: Watched, sched: Schedule, from: nat, until: nat)
    requires Sound(x) && from <= until
    ensures var x' := Iterate(WatchedTurn, x, sched, from, until);
            && Sound(x') && x'.s == Iterate(Turn, x.s, sched, from, until)
            && x'.n.accepted == x.n.accepted && |x'.s.cache.area| == |x.s.cache.area|
    decreases until - from
  {
    if from < until {
      TurnKeeps(x, sched(from));
      TurnsKeep(WatchedTurn(x, sched(from)), sched, from + 1, until);
    }
  }

  /** Once drained, no turn changes what is written. */
  lemma {:induction false} DrainedStays(x: Watched, who: Thread)
    requires Sound(x) && Drained(x)
    ensures Drained(WatchedTurn(x, who)) && WatchedTurn(x, who).s.file == x.s.file
  {
    if who.WriterThread? {
      WriterBetween(x);
    } else if !x.s.consumer.CIdle? {
      assert Stopped(|x.s.cache.area|, x.n.waiting[x.s.consumer.i]);
    }
  }

  lemma {:induction false} DrainedForever(x: Watched, sched: Schedule, from: nat, until: nat)
    requires Sound(x) && Drained(x) && from <= until
    ensures Iterate(Turn, x.s, sched, from, until).file == x.s.file
    decreases until - from
  {
    if from < until {
      TurnKeeps(x, sched(from));
      DrainedStays(x, sched(from));
      DrainedForever(WatchedTurn(x, sched(from)), sched, from + 1, until);
    }
  }

  // ----- Every fair schedule -----

  /** Every fair schedule comes to a turn, `done`, from which on everything is drained and the file the same. */
  lemma {:induction false} FairlyDrains(x: Watched, sched: Schedule) returns (done: nat, x': Watched)
    requires Sound(x) && Fair(sched)
    ensures Sound(x') && Drained(x') && x'.n.accepted == x.n.accepted && |x'.s.cache.area| == |x.s.cache.area|
    ensures forall k: nat | done <= k :: Iterate(Turn, x.s, sched, 0, k).file == x'.s.file
  {
    PipelineProgresses();
    var at := NextTurn(sched, Awaited(x), 0);
    done := FairlyEnds(WatchedTurn, Sound, Drained, Awaited, RankOf, x, sched, 0, at);
    TurnsKeep(x, sched, 0, done);
    x' := Iterate(WatchedTurn, x, sched, 0, done);
    forall k: nat | done <= k ensures Iterate(Turn, x.s, sched, 0, k).file == x'.s.file {
      IterateOn(Turn, x.s, sched, 0, done, k);
      DrainedForever(x', sched, done, k);
    }
  }

  /**
   * After any run, once the producers are silent, every fair schedule of consumer and writer comes to
   * a turn, `done`, from which on the file holds of each producer exactly the messages before the
   * first that is not passable.
   */
  lemma {:induction false} FairRunDrains(s: System, steps: seq<Step>, sched: Schedule)
    returns (done: nat, written: seq<Tagged>)
    requires Init(s) && CanRun(s, steps) && Fair(sched)
    ensures forall k: nat | done <= k :: Iterate(Turn, RunTo(s, steps), sched, 0, k).file == Payloads(Msgs(written))
    ensures FromProducers(written, |s.rings|)
    ensures forall i | 0 <= i < |s.rings| ::
              var q := AcceptedBy(s, steps, i); Of(written, i) == q[..PassLen(|s.cache.area|, q)]
  {
    var n := RunFromInit(s, steps);
    var x;
    done, x := FairlyDrains(Watched(RunTo(s, steps), n), sched);
    written := x.n.written;
    forall i | 0 <= i < |s.rings|
      ensures var q := AcceptedBy(s, steps, i); Of(written, i) == q[..PassLen(|s.cache.area|, q)]
    {
      SettledWritten(x.s, x.n, i);
    }
  }

  /** With rings no larger than the cache, it comes to hold all that was accepted. */
  lemma {:induction false} FairRunDrainsAll(s: System, steps: seq<Step>, sched: Schedule)
    returns (done: nat, written: seq<Tagged>)
    requires Init(s) && CanRun(s, steps) && Fair(sched) && RoomyCache(s)
    ensures forall k: nat | done <= k :: Iterate(Turn, RunTo(s, steps), sched, 0, k).file == Payloads(Msgs(written))
    ensures FromProducers(written, |s.rings|)
    ensures forall i | 0 <= i < |s.rings| :: Of(written, i) == AcceptedBy(s, steps, i)
  {
    done, written := FairRunDrains(s, steps, sched);
    forall i | 0 <= i < |s.rings| ensures Of(written, i) == AcceptedBy(s, steps, i) {
      AllAcceptedPass(s, steps, i);
    }
  }
}
