/**
 * From the messages that producers offer to the file: what is offered while the ring has room is
 * what is accepted, byte for byte and in order, and what is refused changes nothing.
 */
module AlogOffers {
  import opened AlogRing
  import opened AlogChannel
  import opened AlogPipeline
  import opened AlogPipelineProof
  import opened AlogDrain
  import opened AlogFair

  /** Length and text fit, and two more bytes stay free. */
  predicate RoomFor(r: Ring, m: Msg) { RingOk(r) && Used(|r.area|, r.head, r.tail) + 4 + |m| + 2 <= |r.area| }

  /** The message that a step offers to ring `i`, if there is room for it. */
  function TakenBy(s: System, step: Step, i: nat): seq<Msg>
    requires Enabled(s, step)
  {
    if step.Offer? && step.i == i && RoomFor(s.rings[i], step.m) then [step.m] else []
  }

  /** The messages that a run offers to ring `i` while there is room for them. */
  function OfferedBy(s: System, steps: seq<Step>, i: nat): seq<Msg>
    requires CanRun(s, steps)
    decreases |steps|
  {
    if steps == [] then [] else TakenBy(s, steps[0], i) + OfferedBy(Apply(s, steps[0]), steps[1..], i)
  }

  /** The message that producer `i` is copying. */
  function InFlight(s: System, i: nat): seq<Msg> {
    if i < |s.producers| && s.producers[i].PCopy? then [s.producers[i].msg] else []
  }

  /** An offer without room changes nothing. */
  lemma {:induction false} RefusedChangesNothing(s: System, i: nat, m: Msg)
    requires Enabled(s, Offer(i, m)) && !RoomFor(s.rings[i], m)
    ensures Apply(s, Offer(i, m)) == s
  {
  }

  lemma {:induction false} OneOffer(s: System, step: Step, i: nat)
    requires Enabled(s, step) && |s.producers| == |s.rings|
    ensures InFlight(s, i) + TakenBy(s, step, i) == PublishedBy(s, step, i) + InFlight(Apply(s, step), i)
    ensures |Apply(s, step).producers| == |Apply(s, step).rings| == |s.rings|
  {
  }

  lemma {:induction false} Regroup(a: seq<Msg>, b: seq<Msg>, c: seq<Msg>, d: seq<Msg>, e: seq<Msg>, f: seq<Msg>,
                                   g: seq<Msg>)
    requires a + b == c + d && d + e == f + g
    ensures a + (b + e) == (c + f) + g
  {
    assert a + (b + e) == (a + b) + e;
    assert (c + d) + e == c + (d + e);
    assert c + (f + g) == (c + f) + g;
  }

  lemma {:induction false} RunOffers(s: System, steps: seq<Step>, i: nat)
    requires CanRun(s, steps) && |s.producers| == |s.rings|
    ensures InFlight(s, i) + OfferedBy(s, steps, i) == AcceptedBy(s, steps, i) + InFlight(RunTo(s, steps), i)
    decreases |steps|
  {
    if steps != [] {
      var s1 := Apply(s, steps[0]);
      OneOffer(s, steps[0], i);
      RunOffers(s1, steps[1..], i);
      Regroup(InFlight(s, i), TakenBy(s, steps[0], i), PublishedBy(s, steps[0], i), InFlight(s1, i),
              OfferedBy(s1, steps[1..], i), AcceptedBy(s1, steps[1..], i), InFlight(RunTo(s, steps), i));
    }
  }

  /** In every run, what was offered to a ring with room is what was accepted, and the message in flight. */
  lemma {:induction false} OfferedIsAccepted(s: System, steps: seq<Step>, i: nat)
    requires Init(s) && CanRun(s, steps) && i < |s.rings|
    ensures OfferedBy(s, steps, i) == AcceptedBy(s, steps, i) + InFlight(RunTo(s, steps), i)
  {
    RunOffers(s, steps, i);
    assert [] + OfferedBy(s, steps, i) == OfferedBy(s, steps, i);
  }

  /**
   * At every moment of every run, the messages offered to a ring with room are, in order: those in the
   * file, those in the cache, those in the ring, and the one that is being copied.
   */
  lemma {:induction false} EveryOfferAccounted(s: System, steps: seq<Step>)
    returns (written: seq<Tagged>, cached: seq<Tagged>, waiting: seq<seq<Msg>>)
    requires Init(s) && CanRun(s, steps)
    ensures Accounts(RunTo(s, steps), written, cached, waiting) && |waiting| == |s.rings|
    ensures forall i | 0 <= i < |s.rings| ::
              OfferedBy(s, steps, i) == Of(written, i) + Of(cached, i) + waiting[i] + InFlight(RunTo(s, steps), i)
  {
    written, cached, waiting := EveryRunConserves(s, steps);
    forall i | 0 <= i < |s.rings|
      ensures OfferedBy(s, steps, i) == Of(written, i) + Of(cached, i) + waiting[i] + InFlight(RunTo(s, steps), i)
    {
      OfferedIsAccepted(s, steps, i);
    }
  }

  /**
   * With rings no larger than the cache and all producers idle, every fair schedule brings the file to
   * hold exactly what was offered to rings with room.
   */
  lemma {:induction false} EveryOfferArrives(s: System, steps: seq<Step>, sched: Schedule)
    returns (done: nat, written: seq<Tagged>)
    requires Init(s) && CanRun(s, steps) && Fair(sched) && RoomyCache(s)
    requires forall i | 0 <= i < |s.rings| :: InFlight(RunTo(s, steps), i) == []
    ensures forall k: nat | done <= k :: Iterate(Turn, RunTo(s, steps), sched, 0, k).file == Payloads(Msgs(written))
    ensures FromProducers(written, |s.rings|)
    ensures forall i | 0 <= i < |s.rings| :: Of(written, i) == OfferedBy(s, steps, i)
  {
    done, written := FairRunDrainsAll(s, steps, sched);
    forall i | 0 <= i < |s.rings| ensures Of(written, i) == OfferedBy(s, steps, i) {
      OfferedIsAccepted(s, steps, i);
    }
  }

  // ----- A producer is never stuck -----

  /** What is left of a copy: bytes, then the publication. */
  function CopySteps(i: nat, left: nat): seq<Step> {
    if left == 0 then [Publish(i)] else [CopyByte(i)] + CopySteps(i, left - 1)
  }

  lemma {:induction false} FinishesCopy(s: System, i: nat, left: nat)
    requires i < |s.rings| && |s.producers| == |s.rings| && s.producers[i].PCopy?
    requires s.producers[i].k + left == |Frame(s.producers[i].msg)|
    ensures CanRun(s, CopySteps(i, left)) && InFlight(RunTo(s, CopySteps(i, left)), i) == []
    ensures AcceptedBy(s, CopySteps(i, left), i) == [s.producers[i].msg]
    decreases left
  {
    var steps := CopySteps(i, left);
    if left == 0 {
      assert steps[1..] == [];
    } else {
      assert steps[1..] == CopySteps(i, left - 1);
      FinishesCopy(Apply(s, CopyByte(i)), i, left - 1);
    }
  }

  /** An idle producer can have any message accepted that its ring has room for, by steps of its own. */
  lemma {:induction false} OfferSucceeds(s: System, i: nat, m: Msg) returns (steps: seq<Step>)
    requires i < |s.rings| && |s.producers| == |s.rings| && s.producers[i].PIdle? && RoomFor(s.rings[i], m)
    ensures CanRun(s, steps) && forall step | step in steps :: ByProducer(step)
    ensures AcceptedBy(s, steps, i) == [m] && InFlight(RunTo(s, steps), i) == []
  {
    var rest := CopySteps(i, |Frame(m)|);
    steps := [Offer(i, m)] + rest;
    assert steps[1..] == rest;
    FinishesCopy(Apply(s, Offer(i, m)), i, |Frame(m)|);
    StepsAreOwn(i, |Frame(m)|);
  }

  lemma {:induction false} StepsAreOwn(i: nat, left: nat)
    ensures forall step | step in CopySteps(i, left) :: ByProducer(step)
  {
    if left > 0 { StepsAreOwn(i, left - 1); }
  }
}
