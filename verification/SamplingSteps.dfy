/** The sampling loop inside the running system: how often it publishes and what, and that its cycles are
    the cycles of the loop taken by itself. */
module SamplingSteps {
  import opened Domain
  import opened FaultBits
  import opened Registers
  import opened CommsLoss
  import opened AdamOutputs
  import opened ModbusServer
  import opened ControlSystem
  import opened SystemShape
  import opened ReleaseSafety
  import L = SamplingLoop

  // ─── One cycle ────────────────────────────────────────────────────

  /** Between two cycles, after the start-up reset. */
  predicate Ready(s: Sys) {
    s.outputsReset && s.sampler.Paused?
  }

  /** From every such state one cycle publishes exactly one more sample, all of it, and leaves the loop
      ready for the next. It writes no coil and changes no relay, queue, watchdog or task. */
  lemma CyclePublishes(s: Sys, inputs: InputSnapshot, outputs: set<Relay>, wall: int)
    requires Ready(s)
    ensures var after := Run(s, [CycleBegin, Publish(inputs, outputs, wall)]);
      && Ready(after) && after.publishes == s.publishes + 1
      && after.store.snap.position == inputs.position && after.store.snap.atsMode == inputs.atsMode
      && after.store.snap.normalAvailable == inputs.normalAvailable
      && after.store.snap.emergencyAvailable == inputs.emergencyAvailable
      && after.store.snap.engineStartCalling == inputs.engineStartCalling
      && after.store.snap.active == outputs && INPUT_BIT !in after.store.snap.faultBits
      && after == s.(store := after.store, publishes := after.publishes)
  {
    RunOfTwo(s, CycleBegin, Publish(inputs, outputs, wall));
  }

  /** A cycle that fails publishes nothing but the input fault, and leaves the loop ready too. */
  lemma FailedCycleStaysReady(s: Sys)
    requires Ready(s)
    ensures var after := Run(s, [CycleBegin, CycleFail]);
      Ready(after) && after == s.(store := SetInputFault(s.store, true)) && INPUT_BIT in after.store.snap.faultBits
  {
    RunOfTwo(s, CycleBegin, CycleFail);
  }

  // ─── Many cycles ──────────────────────────────────────────────────

  datatype Outcome = Failed | Got(inputs: InputSnapshot, outputs: set<Relay>, wall: int)

  function Finish(r: Outcome): Event {
    match r case Failed => CycleFail case Got(inputs, outputs, wall) => Publish(inputs, outputs, wall)
  }

  function Cycles(results: seq<Outcome>): seq<Event> {
    if results == [] then [] else [CycleBegin, Finish(results[0])] + Cycles(results[1..])
  }

  function Successes(results: seq<Outcome>): nat {
    if results == [] then 0 else (if results[0].Got? then 1 else 0) + Successes(results[1..])
  }

  lemma {:induction false} CyclesPublish(s: Sys, results: seq<Outcome>)
    requires Ready(s)
    ensures var after := Run(s, Cycles(results));
      Ready(after) && after.publishes == s.publishes + Successes(results) && after.wire == s.wire && after.on == s.on
    decreases |results|
  {
    if results != [] {
      var first := [CycleBegin, Finish(results[0])];
      RunAppend(s, first, Cycles(results[1..]));
      assert Cycles(results) == first + Cycles(results[1..]);
      match results[0] {
        case Failed => FailedCycleStaysReady(s);
        case Got(inputs, outputs, wall) => CyclePublishes(s, inputs, outputs, wall);
      }
      CyclesPublish(Run(s, first), results[1..]);
    }
  }

  /** From boot: the first cycle resets the outputs, and every successful cycle from it on publishes. */
  lemma CyclesFromBootPublish(
      on: set<Relay>, persisted: Persisted, wall: int, hwOk: bool, now: int, first: Outcome, results: seq<Outcome>)
    ensures var after := Run(Boot(on, persisted, wall, hwOk, now), RESET + [Finish(first)] + Cycles(results));
      Ready(after) && after.publishes == Successes([first] + results) && after.wire == [] && after.on == {}
  {
    var s0 := Boot(on, persisted, wall, hwOk, now);
    ResetCompletes(s0);
    var s1 := Run(s0, RESET);
    RunAppend(s0, RESET, [Finish(first)]);
    RunAppend(s0, RESET + [Finish(first)], Cycles(results));
    assert [Finish(first)][1..] == [] && Run(s1, [Finish(first)]) == Step(s1, Finish(first));
    assert s1.publishes == 0 by {
      ResetPublishesNothing(s0, RESET);
    }
    CyclesPublish(Step(s1, Finish(first)), results);
    assert ([first] + results)[1..] == results;
  }

  lemma {:induction false} ResetPublishesNothing(s: Sys, es: seq<Event>)
    requires forall e :: e in es ==> !e.Publish?
    ensures Run(s, es).publishes == s.publishes
    decreases |es|
  {
    if es != [] {
      PublishesCount(s, es[0]);
      ResetPublishesNothing(Step(s, es[0]), es[1..]);
    }
  }

  // ─── Any interleaving ─────────────────────────────────────────────

  lemma PublishesCount(s: Sys, e: Event)
    ensures Step(s, e).publishes == s.publishes + if e.Publish? && s.sampler.Reading? then 1 else 0
  {
    match e
    case Answer(how) => AnswerIsLocal(s, how);
    case Start => StartIsLocal(s);
    case _ =>
  }

  /** Is a cycle under way after `e`, if one was before? */
  function ReadingAfter(reading: bool, e: Event): bool {
    if e.CycleBegin? then true else if e.CycleFail? || e.Publish? then false else reading
  }

  /** How many samples the events publish, from their order alone. */
  function Published(reading: bool, es: seq<Event>): nat
    decreases |es|
  {
    if es == [] then 0
    else (if es[0].Publish? && reading then 1 else 0) + Published(ReadingAfter(reading, es[0]), es[1..])
  }

  lemma StepReads(s: Sys, e: Event)
    requires Shaped(s) && s.outputsReset
    ensures Step(s, e).sampler.Reading? <==> ReadingAfter(s.sampler.Reading?, e)
  {
    match e
    case Answer(how) => if s.wire != [] { AnswerKeepsSampler(s, how); }
    case Start => StartIsLocal(s);
    case _ =>
  }

  lemma AnswerKeepsSampler(s: Sys, how: Answered)
    requires Shaped(s) && s.outputsReset && s.wire != []
    ensures DoAnswer(s, how).sampler == s.sampler
  {
    assert s.wire[0] in s.wire && s.wire[0].owner != BySampler;
  }

  /** Exact, in every interleaving with requests, commands, releases, pulses and failures: after the
      start-up reset a run publishes exactly the samples that end a cycle it began. */
  lemma {:induction false} PublishesExactly(s: Sys, es: seq<Event>)
    requires Shaped(s) && s.outputsReset
    ensures Run(s, es).publishes == s.publishes + Published(s.sampler.Reading?, es)
    decreases |es|
  {
    if es != [] {
      PublishesCount(s, es[0]);
      StepReads(s, es[0]);
      StepKeepsShape(s, es[0]);
      StaysReset(s, es[0]);
      PublishesExactly(Step(s, es[0]), es[1..]);
    }
  }

  // ─── The loop by itself ───────────────────────────────────────────

  function View(s: Sys, failures: nat): L.Progress {
    L.Progress(s.store, s.driver.commanded, s.outputsReset, failures)
  }

  /** The cycle the loop sees when the system ends one like this. */
  function CycleOf(s: Sys, r: Outcome): L.Cycle {
    L.Cycle([], [], match r case Failed => L.Failed case Got(inputs, outputs, _) => L.Got(inputs, outputs),
            s.driver.hwOk, s.now, match r case Failed => 0 case Got(_, _, wall) => wall)
  }

  /** Refinement: a cycle of the system is a cycle of the loop, failures counted alike. */
  lemma CycleRefinesLoop(s: Sys, failures: nat, r: Outcome)
    requires Ready(s)
    ensures View(Run(s, [CycleBegin, Finish(r)]), if r.Got? then 0 else failures + 1)
         == L.AfterCycle(View(s, failures), CycleOf(s, r))
  {
    RunOfTwo(s, CycleBegin, Finish(r));
  }

  // ─── The fail-safe gate ───────────────────────────────────────────

  /** The verdict of the latest check, else what was there before. */
  function LastCheck(before: bool, es: seq<Event>): bool {
    if es == [] then before
    else if es[|es| - 1].HwCheck? then es[|es| - 1].ok
    else LastCheck(before, es[..|es| - 1])
  }

  lemma StepGate(s: Sys, e: Event)
    ensures Step(s, e).driver.hwOk == if e.HwCheck? then e.ok else s.driver.hwOk
  {
    match e
    case Answer(how) => AnswerIsLocal(s, how);
    case Start => StartIsLocal(s);
    case _ =>
  }

  /** In every run the gate is what the latest check found, and after the start-up reset a sample that
      finds it unverified raises the output fault. */
  lemma {:induction false} GateFollowsChecks(s: Sys, es: seq<Event>)
    ensures Run(s, es).driver.hwOk == LastCheck(s.driver.hwOk, es)
    ensures forall inputs, outputs, wall :: Run(s, es).sampler.Reading? && !LastCheck(s.driver.hwOk, es) ==>
      OUTPUT_BIT in Step(Run(s, es), Publish(inputs, outputs, wall)).store.snap.faultBits
    decreases |es|
  {
    if es != [] {
      GateFollowsChecks(s, es[..|es| - 1]);
      RunSnoc(s, es);
      StepGate(Run(s, es[..|es| - 1]), es[|es| - 1]);
    }
  }

  lemma GateFollowsChecksFromBoot(on: set<Relay>, persisted: Persisted, wall: int, hwOk: bool, now: int, es: seq<Event>)
    ensures Run(Boot(on, persisted, wall, hwOk, now), es).driver.hwOk == LastCheck(hwOk, es)
  {
    GateFollowsChecks(Boot(on, persisted, wall, hwOk, now), es);
  }
}
