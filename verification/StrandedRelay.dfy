/** A stranded maintained relay is silent: the ledger says it was meant to be on, so the stuck-relay
    check never speaks of it. */
module StrandedRelay {
  import opened Domain
  import opened FaultBits
  import opened Registers
  import opened CommsLoss
  import opened AdamOutputs
  import opened ModbusServer
  import opened ControlSystem
  import opened SystemShape
  import opened ReleaseSafety
  import opened PulseRelease

  /** The last command recorded for Inhibit is ON, as the assertion that stranded it left it. */
  predicate MeantOn(s: Sys) {
    InhibitRelay in s.driver.commanded && s.driver.commanded[InhibitRelay].value
  }

  /** The assertion that strands the relay is recorded when it lands. */
  lemma AssertionIsRecorded(s: Sys)
    requires s.wire != [] && s.wire[0] == CoilWrite(InhibitRelay, true, ByDispatch)
    ensures MeantOn(Step(s, Answer(Landed)))
  {
  }

  /** So both ways of stranding Inhibit end with ON on record. */
  lemma RaceLeavesOnRecorded(s: Sys)
    requires Exposed(s)
    ensures Stranded(Run(s, RACE)) && MeantOn(Run(s, RACE))
  {
    RaceStrandsRelay(s);
    var given := Run(s, RACE[..4]);
    RaceReleases(s);
    assert RACE == RACE[..4] + [Start, Answer(Landed)];
    RunAppend(s, RACE[..4], [Start, Answer(Landed)]);
    RunOfTwo(given, Start, Answer(Landed));
    assert Step(given, Start).wire == [CoilWrite(InhibitRelay, true, ByDispatch)];
    AssertionIsRecorded(Step(given, Start));
  }

  lemma DropRaceLeavesOnRecorded(s: Sys)
    requires Idle(s)
    ensures Stranded(Run(s, DROP_RACE)) && MeantOn(Run(s, DROP_RACE))
  {
    QueuedAssertionStrandsRelay(s);
    DropReleases(s);
    var released := Run(s, DROP_RACE[..3]);
    QueuedAssertionStarts(released);
    var started := Run(released, [Start, Answer(Landed)]);
    RunAppend(s, DROP_RACE[..3], [Start, Answer(Landed)]);
    assert DROP_RACE[..5] == DROP_RACE[..3] + [Start, Answer(Landed)];
    RunAppend(s, DROP_RACE[..5], [Answer(Landed), Answer(Landed)]);
    assert DROP_RACE == DROP_RACE[..5] + [Answer(Landed), Answer(Landed)];
    RunOfTwo(started, Answer(Landed), Answer(Landed));
    AssertionIsRecorded(started);
    assert Step(started, Answer(Landed)).wire == [CoilWrite(ForceRelay, false, ByWatchdog)];
  }

  /** Nothing records a command for Inhibit any more. */
  lemma NothingRecorded(s: Sys, e: Event)
    requires Shaped(s) && Stranded(s)
    ensures !Records(s, e, InhibitRelay)
  {
    assert forall id :: id in s.driver.tasks ==> s.driver.tasks[id].relay != InhibitRelay;
    assert s.wire != [] ==> s.wire[0] in s.wire;
  }

  lemma StepStaysMeantOn(s: Sys, e: Event)
    requires Shaped(s) && Stranded(s) && MeantOn(s)
    ensures MeantOn(Step(s, e))
  {
    NothingRecorded(s, e);
    StepKeepsCommand(s, e, InhibitRelay, s.driver.commanded[InhibitRelay]);
  }

  lemma {:induction false} RunStaysMeantOn(s: Sys, es: seq<Event>)
    requires Shaped(s) && Stranded(s) && MeantOn(s)
    requires forall e :: e in es ==> !e.Arrive?
    ensures Stranded(Run(s, es)) && MeantOn(Run(s, es))
    decreases |es|
  {
    if es != [] {
      StepStaysMeantOn(s, es[0]);
      StepStaysStranded(s, es[0]);
      StepKeepsShape(s, es[0]);
      RunStaysMeantOn(Step(s, es[0]), es[1..]);
    }
  }

  /** A stranded relay is not surfaced. In every run without a request, however long, Inhibit stays on
      and an honest sample raises the output fault exactly when it would if Inhibit were not checked. */
  lemma StrandedIsNeverReported(s: Sys, es: seq<Event>, inputs: InputSnapshot, wall: int)
    requires Shaped(s) && Stranded(s) && MeantOn(s)
    requires forall e :: e in es ==> !e.Arrive?
    ensures var later := Run(s, es);
      && Stranded(later)
      && (later.sampler.Reading? ==>
            (HasOutputFault(Step(later, Publish(inputs, later.on, wall))) <==>
               || HasOutputFault(later) || !later.driver.hwOk
               || exists r :: r != InhibitRelay && Mismatch(later.driver.commanded, r, later.on, later.now)))
  {
    RunStaysMeantOn(s, es);
    var later := Run(s, es);
    assert !Mismatch(later.driver.commanded, InhibitRelay, later.on, later.now);
    if later.sampler.Reading? {
      PublishFaultsExactly(later, inputs, later.on, wall);
    }
  }
}
