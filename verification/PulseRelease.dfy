/** Every energised pulse relay has a release task that does not stop before OFF lands, and a relay
    that overstays its pulse is reported. */
module PulseRelease {
  import opened Domain
  import opened FaultBits
  import opened Registers
  import opened CommsLoss
  import opened AdamOutputs
  import opened ModbusServer
  import opened ControlSystem
  import opened SystemShape
  import opened Startup
  import EndToEnd

  ghost predicate HasTask(tasks: map<nat, PulseTask>, r: Relay) {
    exists id :: id in tasks && tasks[id].relay == r
  }

  /** Some live release task is for `r` and was spawned no later than `r` was switched on. */
  ghost predicate Covered(tasks: map<nat, PulseTask>, lit: map<Relay, int>, r: Relay) {
    r in lit && exists id :: id in tasks && tasks[id].relay == r && tasks[id].born <= lit[r]
  }

  /** Once the start-up reset is done, every energised pulse relay has such a task. */
  ghost predicate PulsesCovered(s: Sys) {
    s.outputsReset ==> forall r :: r in s.on && !Maintained(r) ==> Covered(s.driver.tasks, s.lit, r)
  }

  predicate DueSoon(t: PulseTask, now: int) {
    && t.born <= now
    && match t.pc
       case Window(until) => until <= now + PULSE_MAX_MS
       case RetryAt(at) => at <= now + PULSE_RELEASE_RETRY_MS
       case Writing(_) => true
  }

  /** No live task waits longer than the longest pulse window, or the retry period. */
  predicate TaskTimes(s: Sys) {
    forall id :: id in s.driver.tasks ==> DueSoon(s.driver.tasks[id], s.now)
  }

  /** The one way to lose cover: a pulse's ON write acts although it is reported failed, so that no
      task is spawned, on a relay that has none already. */
  ghost predicate LosesCover(s: Sys, e: Event) {
    && s.outputsReset && e == Answer(LostButActed)
    && s.wire != [] && s.wire[0].owner.ByPulse? && !HasTask(s.driver.tasks, s.wire[0].relay)
  }

  ghost predicate KeepsCover(s: Sys, es: seq<Event>)
    decreases |es|
  {
    es != [] ==> !LosesCover(s, es[0]) && KeepsCover(Step(s, es[0]), es[1..])
  }

  /** `after` has the tasks of `before` but possibly `gone`. */
  lemma CoverSurvives(
      before: map<nat, PulseTask>, after: map<nat, PulseTask>, gone: nat, lit: map<Relay, int>, r: Relay)
    requires Covered(before, lit, r)
    requires forall id :: id in before && (id != gone || before[id].relay == r) ==>
               id in after && after[id].relay == before[id].relay && after[id].born == before[id].born
    ensures Covered(after, lit, r)
  {
    var id :| id in before && before[id].relay == r && before[id].born <= lit[r];
    assert id in after && after[id].relay == r;
  }

  lemma FireCovers(s: Sys, id: nat)
    requires PulsesCovered(s)
    ensures PulsesCovered(DoFire(s, id))
  {
    var after := DoFire(s, id);
    assert after.on == s.on && after.lit == s.lit && after.outputsReset == s.outputsReset;
    if s.outputsReset {
      forall r | r in s.on && !Maintained(r) ensures Covered(after.driver.tasks, after.lit, r) {
        CoverSurvives(s.driver.tasks, after.driver.tasks, s.driver.nextTask, s.lit, r);
      }
    }
  }

  /** The step touches no relay, task or recorded command. */
  predicate LeftAlone(s: Sys, after: Sys) {
    && after.on == s.on && after.lit == s.lit && after.driver.tasks == s.driver.tasks
    && after.driver.commanded == s.driver.commanded && after.driver.nextTask == s.driver.nextTask
    && after.outputsReset == s.outputsReset
  }

  /** Apart from answers and firing tasks, no step after the reset does. */
  lemma LeavesPulses(s: Sys, e: Event)
    requires s.outputsReset && !e.Answer? && !e.Fire?
    ensures LeftAlone(s, Step(s, e)) && Step(s, e).now == s.now + if e.Tick? then e.ms else 0
  {
    if e.Start? {
      StartIsLocal(s);
    }
  }

  /** Exact: a step after the reset leaves some energised pulse relay without a task if and only if it
      is a failed ON write that acted on a relay with none. */
  lemma StepCoversExactly(s: Sys, e: Event)
    requires Shaped(s) && PulsesCovered(s) && TaskTimes(s) && s.outputsReset
    ensures PulsesCovered(Step(s, e)) <==> !LosesCover(s, e)
  {
    match e
    case Answer(how) => if s.wire != [] { AnswerCoversExactly(s, how); }
    case Fire(id) => FireCovers(s, id);
    case _ => LeavesPulses(s, e);
  }

  lemma AnswerCoversExactly(s: Sys, how: Answered)
    requires Shaped(s) && PulsesCovered(s) && TaskTimes(s) && s.outputsReset && s.wire != []
    ensures PulsesCovered(DoAnswer(s, how)) <==> !LosesCover(s, Answer(how))
  {
    assert s.wire[0] in s.wire && TypedWrite(s.driver, s.wire[0]);
    match s.wire[0].owner
    case ByPulse(_) => PulseAnswerCoversExactly(s, how);
    case ByTask(id) => TaskAnswerCovers(s, how, id);
    case _ => OtherAnswerCovers(s, how);
  }

  lemma OtherAnswerCovers(s: Sys, how: Answered)
    requires Shaped(s) && PulsesCovered(s) && s.outputsReset && s.wire != []
    requires !s.wire[0].owner.ByPulse? && !s.wire[0].owner.ByTask?
    ensures PulsesCovered(DoAnswer(s, how))
  {
    var w, after := s.wire[0], DoAnswer(s, how);
    assert w in s.wire && TypedWrite(s.driver, w) && w.owner != BySampler;
    assert after.driver.tasks == s.driver.tasks;
    forall r | r in after.on && !Maintained(r) ensures Covered(after.driver.tasks, after.lit, r) {
      assert r in s.on && (r in after.lit && after.lit[r] == s.lit[r]);
    }
  }

  lemma TaskAnswerCovers(s: Sys, how: Answered, id: nat)
    requires Shaped(s) && PulsesCovered(s) && s.outputsReset && s.wire != [] && s.wire[0].owner == ByTask(id)
    ensures PulsesCovered(DoAnswer(s, how))
  {
    var w, after := s.wire[0], DoAnswer(s, how);
    assert w in s.wire && TypedWrite(s.driver, w);
    TaskAnswerIs(s, how, id);
    forall r | r in after.on && !Maintained(r) ensures Covered(after.driver.tasks, after.lit, r) {
      CoverSurvives(s.driver.tasks, after.driver.tasks, id, s.lit, r);
    }
  }

  /** The relay of a pulse whose ON write acted. */
  lemma LitCover(s: Sys, how: Answered)
    requires Shaped(s) && PulsesCovered(s) && TaskTimes(s) && s.outputsReset
    requires s.wire != [] && s.wire[0].owner.ByPulse? && how != Lost
    ensures Covered(DoAnswer(s, how).driver.tasks, DoAnswer(s, how).lit, s.wire[0].relay) <==>
      how == Landed || HasTask(s.driver.tasks, s.wire[0].relay)
  {
    var w, after := s.wire[0], DoAnswer(s, how);
    assert w in s.wire && TypedWrite(s.driver, w);
    if how == Landed {
      assert after.driver.tasks[s.driver.nextTask] == PulseTask(w.relay, Window(s.now + Clamp(w.owner.ms)), s.now, 0);
      if w.relay in s.on {
        CoverSurvives(s.driver.tasks, after.driver.tasks, s.driver.nextTask, s.lit, w.relay);
      }
    } else {
      assert after.driver.tasks == s.driver.tasks;
      if w.relay !in s.on {
        assert after.lit[w.relay] == s.now;
      }
    }
  }

  lemma PulseAnswerCoversExactly(s: Sys, how: Answered)
    requires Shaped(s) && PulsesCovered(s) && TaskTimes(s) && s.outputsReset
    requires s.wire != [] && s.wire[0].owner.ByPulse?
    ensures PulsesCovered(DoAnswer(s, how)) <==> !LosesCover(s, Answer(how))
  {
    var w, after := s.wire[0], DoAnswer(s, how);
    assert w in s.wire && TypedWrite(s.driver, w);
    forall r | r in after.on && !Maintained(r) && (r != w.relay || how == Lost)
      ensures Covered(after.driver.tasks, after.lit, r)
    {
      CoverSurvives(s.driver.tasks, after.driver.tasks, s.driver.nextTask, s.lit, r);
    }
    if how != Lost {
      LitCover(s, how);
      assert w.relay in after.on;
    }
  }

  lemma StepTimes(s: Sys, e: Event)
    requires TaskTimes(s)
    ensures TaskTimes(Step(s, e))
  {
    match e
    case Start => StartIsLocal(s);
    case Answer(how) => if s.wire != [] { AnswerTimes(s, how); }
    case Fire(id) => FireTimes(s, id);
    case _ =>
  }

  lemma FireTimes(s: Sys, id: nat)
    requires TaskTimes(s)
    ensures TaskTimes(DoFire(s, id))
  {
  }

  lemma AnswerTimes(s: Sys, how: Answered)
    requires TaskTimes(s) && s.wire != []
    ensures TaskTimes(DoAnswer(s, how))
  {
    if s.wire[0].owner.ByTask? {
      TaskAnswerIs(s, how, s.wire[0].owner.id);
    } else {
      OtherAnswerTasks(s, how);
    }
  }

  ghost predicate AlwaysCovered(s: Sys, es: seq<Event>)
    decreases |es|
  {
    PulsesCovered(s) && (es != [] ==> AlwaysCovered(Step(s, es[0]), es[1..]))
  }

  /** The step that completes the reset leaves both pulse relays off. */
  lemma ResetLeavesPulsesOff(boot: Store, s: Sys, e: Event)
    requires BootLike(boot) && Shaped(s) && (s.publishes == 0 ==> Unpublished(boot, s))
    requires !s.outputsReset && Step(s, e).outputsReset
    ensures PulsesCovered(Step(s, e))
  {
    StepCounts(s, e);
    StepUnpublished(boot, s, e);
    var after := Step(s, e);
    assert RESET_ORDER[0] !in after.on && RESET_ORDER[3] !in after.on;
  }

  lemma {:induction false} CoversExactly(boot: Store, s: Sys, es: seq<Event>)
    requires BootLike(boot) && Shaped(s) && (s.publishes == 0 ==> Unpublished(boot, s))
    requires PulsesCovered(s) && TaskTimes(s)
    ensures AlwaysCovered(s, es) <==> KeepsCover(s, es)
    decreases |es|
  {
    if es != [] {
      var after := Step(s, es[0]);
      StepKeepsShape(s, es[0]);
      StepTimes(s, es[0]);
      KeepsUnpublished(boot, s, es[0]);
      if s.outputsReset {
        StepCoversExactly(s, es[0]);
      } else if after.outputsReset {
        ResetLeavesPulsesOff(boot, s, es[0]);
      }
      if PulsesCovered(after) {
        CoversExactly(boot, after, es[1..]);
      }
    }
  }

  lemma KeepsUnpublished(boot: Store, s: Sys, e: Event)
    requires BootLike(boot) && Shaped(s) && (s.publishes == 0 ==> Unpublished(boot, s))
    ensures Step(s, e).publishes == 0 ==> Unpublished(boot, Step(s, e))
  {
    StepCounts(s, e);
    if Step(s, e).publishes == 0 {
      StepUnpublished(boot, s, e);
    }
  }

  lemma {:induction false} CoveredAtEnd(s: Sys, es: seq<Event>)
    requires Shaped(s) && TaskTimes(s) && AlwaysCovered(s, es)
    ensures Shaped(Run(s, es)) && TaskTimes(Run(s, es)) && PulsesCovered(Run(s, es))
    decreases |es|
  {
    if es != [] {
      StepKeepsShape(s, es[0]);
      StepTimes(s, es[0]);
      CoveredAtEnd(Step(s, es[0]), es[1..]);
    }
  }

  /** A live release task is working on `r`: waiting out at most the longest window, or holding
      exactly one outstanding OFF write, or due to retry within the retry period. */
  ghost predicate Attends(s: Sys, id: nat, r: Relay) {
    && id in s.driver.tasks && s.driver.tasks[id].relay == r
    && match s.driver.tasks[id].pc
       case Window(until) => until <= s.now + 1500
       case Writing(_) => Pending(s.wire, ByTask(id)) == 1
       case RetryAt(at) => at <= s.now + 250
  }

  /** In every run from boot that never loses cover, once the start-up reset is done, every energised
      Test or Bypass relay is attended by a live release task. */
  lemma EnergisedPulseIsAttended(
      on: set<Relay>, persisted: Persisted, wall: int, hwOk: bool, now: int, es: seq<Event>, r: Relay)
    requires KeepsCover(Boot(on, persisted, wall, hwOk, now), es)
    ensures var s := Run(Boot(on, persisted, wall, hwOk, now), es);
      s.outputsReset && r in s.on && !Maintained(r) ==>
        r in s.lit && exists id :: Attends(s, id, r) && s.driver.tasks[id].born <= s.lit[r]
  {
    var s0 := Boot(on, persisted, wall, hwOk, now);
    CoversExactly(s0.store, s0, es);
    CoveredAtEnd(s0, es);
    var s := Run(s0, es);
    if s.outputsReset && r in s.on && !Maintained(r) {
      var id :| id in s.driver.tasks && s.driver.tasks[id].relay == r && s.driver.tasks[id].born <= s.lit[r];
      assert Attends(s, id, r);
    }
  }

  lemma AnswerEndsTask(s: Sys, how: Answered, id: nat)
    requires Shaped(s) && s.outputsReset && id in s.driver.tasks && s.wire != []
    ensures id !in DoAnswer(s, how).driver.tasks <==> how == Landed && s.wire[0].owner == ByTask(id)
  {
    match s.wire[0].owner
    case ByTask(x) => TaskAnswerIs(s, how, x);
    case _ =>
  }

  lemma FireKeepsTasks(s: Sys, fired: nat)
    ensures DoFire(s, fired).driver.tasks.Keys == s.driver.tasks.Keys
  {
  }

  /** A live task ends only when its own OFF write lands: no other step, once the start-up reset is
      done, removes it. */
  lemma TaskEndsOnlyByLanding(s: Sys, e: Event, id: nat)
    requires Shaped(s) && s.outputsReset && id in s.driver.tasks
    ensures id !in Step(s, e).driver.tasks <==>
      e == Answer(Landed) && s.wire != [] && s.wire[0].owner == ByTask(id)
    ensures e == Answer(Landed) && s.wire != [] && s.wire[0].owner == ByTask(id) ==>
      s.driver.tasks[id].relay !in Step(s, e).on
  {
    match e
    case Answer(how) =>
      if s.wire != [] {
        AnswerEndsTask(s, how, id);
        assert s.wire[0] in s.wire && TypedWrite(s.driver, s.wire[0]);
      }
    case Fire(fired) => FireKeepsTasks(s, fired);
    case _ => LeavesPulses(s, e);
  }

  /** The command pulses `r`. */
  predicate Pulses(i: CommandIntent, r: Relay) {
    (i.PulseTest? && r == TestRelay) || (i.PulseBypass? && r == BypassRelay)
  }

  /** The ON write of a pulse of `r` lands. */
  predicate PulseLands(s: Sys, e: Event, r: Relay) {
    e == Answer(Landed) && s.wire != [] && s.wire[0].owner.ByPulse? && s.wire[0].relay == r
  }

  predicate NoPulseLands(s: Sys, es: seq<Event>, r: Relay)
    decreases |es|
  {
    es != [] ==> !PulseLands(s, es[0], r) && NoPulseLands(Step(s, es[0]), es[1..], r)
  }

  /** A slot changes hands only when a pulse of its relay lands. */
  lemma SlotStays(s: Sys, e: Event, r: Relay)
    requires !PulseLands(s, e, r)
    ensures var before, after := s.driver, Step(s, e).driver;
      && (r in after.slots <==> r in before.slots)
      && (r in before.slots ==> after.slots[r] == before.slots[r])
  {
    match e
    case Answer(how) => if s.wire != [] { AnswerSlots(s, how); }
    case Start => StartIsLocal(s);
    case _ =>
  }

  lemma {:induction false} SlotLasts(s: Sys, es: seq<Event>, r: Relay)
    requires NoPulseLands(s, es, r)
    ensures var before, after := s.driver, Run(s, es).driver;
      && (r in after.slots <==> r in before.slots)
      && (r in before.slots ==> after.slots[r] == before.slots[r])
    decreases |es|
  {
    if es != [] {
      SlotStays(s, es[0], r);
      SlotLasts(Step(s, es[0]), es[1..], r);
    }
  }

  /** Starting a pulse command, with the gate open, in terms of the slot. */
  lemma StartPulses(s: Sys, r: Relay)
    requires s.queue != [] && Pulses(s.queue[0], r) && s.driver.hwOk
    ensures var after := Step(s, Start);
      if Pulsing(s.driver, r) then after.wire == s.wire && !HasOutputFault(after)
      else after.wire == s.wire + [CoilWrite(r, true, ByPulse(s.queue[0].ms))]
    ensures Step(s, Start).driver == s.driver && Step(s, Start).on == s.on
  {
    StartIsLocal(s);
  }

  /** Exact, over every run. A pulse lands and spawns its task; as long as no further pulse of the relay
      lands, another command for it writes nothing if and only if that task is still live, whatever else
      happens in between; otherwise it issues exactly one ON write. */
  lemma RetriggerIsIgnoredExactly(s: Sys, ms: int, es: seq<Event>)
    requires s.wire != [] && s.wire[0].owner == ByPulse(ms)
    requires NoPulseLands(Step(s, Answer(Landed)), es, s.wire[0].relay)
    ensures var id, r, later := s.driver.nextTask, s.wire[0].relay, Run(Step(s, Answer(Landed)), es);
      later.queue != [] && Pulses(later.queue[0], r) && later.driver.hwOk ==>
        var after := Step(later, Start);
        && after.driver == later.driver && after.on == later.on
        && (after.wire == later.wire <==> id in later.driver.tasks)
        && (id in later.driver.tasks ==> !HasOutputFault(after))
        && (id !in later.driver.tasks ==>
              after.wire == later.wire + [CoilWrite(r, true, ByPulse(later.queue[0].ms))])
  {
    var r, pulsed := s.wire[0].relay, Step(s, Answer(Landed));
    SlotLasts(pulsed, es, r);
    var later := Run(pulsed, es);
    if later.queue != [] && Pulses(later.queue[0], r) && later.driver.hwOk {
      StartPulses(later, r);
    }
  }

  /** And before any pulse of a relay has landed, every command for it is written. */
  lemma FirstPulseIsWritten(
      on: set<Relay>, persisted: Persisted, wall: int, hwOk: bool, now: int, es: seq<Event>, r: Relay)
    requires NoPulseLands(Boot(on, persisted, wall, hwOk, now), es, r)
    ensures var s := Run(Boot(on, persisted, wall, hwOk, now), es);
      s.queue != [] && Pulses(s.queue[0], r) && s.driver.hwOk ==>
        Step(s, Start).wire == s.wire + [CoilWrite(r, true, ByPulse(s.queue[0].ms))]
  {
    SlotLasts(Boot(on, persisted, wall, hwOk, now), es, r);
    var s := Run(Boot(on, persisted, wall, hwOk, now), es);
    if s.queue != [] && Pulses(s.queue[0], r) && s.driver.hwOk {
      StartPulses(s, r);
    }
  }

  /** A reset cancels every task that still holds a slot, so that none re-drives a relay behind it. */
  lemma ResetCancelsPulses(s: Sys, r: Relay)
    requires s.sampler.Paused? && !s.outputsReset
    ensures !Pulsing(Step(s, CycleBegin).driver, r)
    ensures forall id :: id in Step(s, CycleBegin).driver.tasks ==>
      id in s.driver.tasks && forall q :: q in s.driver.slots ==> s.driver.slots[q] != id
  {
  }

  /** Cover is lost in ordinary operation: in any idle state that permits it, a pulse command whose ON
      write acts but is reported failed energises its relay with no release task at all. */
  lemma UnreportedPulseIsUnattended(s: Sys, conn: Conn, i: CommandIntent)
    requires EndToEnd.Ready(s, i) && (i.PulseTest? || i.PulseBypass?) && i.ms == 750
    requires !HasTask(s.driver.tasks, EndToEnd.RelayOf(i)) && !Pulsing(s.driver, EndToEnd.RelayOf(i))
    ensures var given := Run(s, EndToEnd.GiveCommand(conn, i)[..2]);
      var after := Step(given, Answer(LostButActed));
      && (s.outputsReset ==> LosesCover(given, Answer(LostButActed)))
      && EndToEnd.RelayOf(i) in after.on && after.wire == [] && !HasTask(after.driver.tasks, EndToEnd.RelayOf(i))
  {
    var es := EndToEnd.GiveCommand(conn, i);
    EndToEnd.CommandArrives(s, conn, i);
    RunOfTwo(s, es[0], Start);
    assert es[..2] == [es[0], Start];
    var given := Step(Step(s, es[0]), Start);
    assert given.wire == [CoilWrite(EndToEnd.RelayOf(i), true, ByPulse(i.ms))] && given.driver == s.driver;
  }

  // ─── A stuck or stranded relay is surfaced ────────────────────────

  predicate HasOutputFault(s: Sys) {
    OUTPUT_BIT in s.store.snap.faultBits
  }

  /** The step records a new command for `r`. */
  predicate Records(s: Sys, e: Event, r: Relay) {
    || (e == Answer(Landed) && s.wire != [] && !s.wire[0].owner.ByTask? && s.wire[0].relay == r)
    || (e.Fire? && e.id in s.driver.tasks && s.driver.tasks[e.id].relay == r && s.driver.tasks[e.id].pc.Window?)
  }

  predicate Unrecorded(s: Sys, es: seq<Event>, r: Relay)
    decreases |es|
  {
    es != [] ==> !Records(s, es[0], r) && Unrecorded(Step(s, es[0]), es[1..], r)
  }

  predicate LastCommand(s: Sys, r: Relay, c: Command) {
    r in s.driver.commanded && s.driver.commanded[r] == c
  }

  lemma StepKeepsCommand(s: Sys, e: Event, r: Relay, c: Command)
    requires Shaped(s) && LastCommand(s, r, c) && !Records(s, e, r)
    ensures LastCommand(Step(s, e), r, c)
  {
    match e
    case Start => StartIsLocal(s);
    case Answer(how) => if s.wire != [] { AnswerKeepsCommand(s, how, r, c); }
    case Fire(id) => FireKeepsCommand(s, id, r, c);
    case _ =>
  }

  lemma FireKeepsCommand(s: Sys, id: nat, r: Relay, c: Command)
    requires LastCommand(s, r, c) && !Records(s, Fire(id), r)
    ensures LastCommand(DoFire(s, id), r, c)
  {
  }

  /** An answer records at most one command, for the relay that was written. */
  lemma AnswerRecords(s: Sys, how: Answered)
    requires Shaped(s) && s.wire != []
    ensures var w, before, after := s.wire[0], s.driver.commanded, DoAnswer(s, how).driver.commanded;
      if how != Landed || w.owner.ByTask? then after == before else after == before[w.relay := Command(w.value, s.now)]
  {
    var w := s.wire[0];
    assert w in s.wire && TypedWrite(s.driver, w);
    match w.owner
    case ByTask(id) => TaskAnswerIs(s, how, id);
    case ByWatchdog => NoneInWire(s.wire, ByWatchdog);
    case BySampler => PopResetIsIdle(s, how);
    case _ =>
  }

  lemma AnswerKeepsCommand(s: Sys, how: Answered, r: Relay, c: Command)
    requires Shaped(s) && LastCommand(s, r, c) && !Records(s, Answer(how), r) && s.wire != []
    ensures LastCommand(DoAnswer(s, how), r, c)
  {
    AnswerRecords(s, how);
  }

  lemma {:induction false} RunKeepsCommand(s: Sys, es: seq<Event>, r: Relay, c: Command)
    requires Shaped(s) && LastCommand(s, r, c) && Unrecorded(s, es, r)
    ensures LastCommand(Run(s, es), r, c)
    decreases |es|
  {
    if es != [] {
      StepKeepsCommand(s, es[0], r, c);
      StepKeepsShape(s, es[0]);
      RunKeepsCommand(Step(s, es[0]), es[1..], r, c);
    }
  }

  /** A published sample raises the output fault exactly when it was already up, the fail-safe is
      unverified, or some relay commanded at least 0.5 s ago reads back as the opposite. */
  lemma PublishFaultsExactly(s: Sys, inputs: InputSnapshot, outputs: set<Relay>, wall: int)
    requires s.sampler.Reading?
    ensures HasOutputFault(Step(s, Publish(inputs, outputs, wall))) <==>
      || HasOutputFault(s) || !s.driver.hwOk
      || exists r :: Mismatch(s.driver.commanded, r, outputs, s.now)
  {
  }

  /** A relay that overstays is surfaced. When a pulse window expires and the relay is still read
      back as on half a second later, with nothing newer commanded to it, every successful sample
      raises the output fault, however its OFF write has fared. */
  lemma OverstayIsSurfaced(s: Sys, id: nat, es: seq<Event>, inputs: InputSnapshot, outputs: set<Relay>, wall: int)
    requires Shaped(s) && id in s.driver.tasks
    requires s.driver.tasks[id].pc.Window? && s.now >= s.driver.tasks[id].pc.until
    requires Unrecorded(Step(s, Fire(id)), es, s.driver.tasks[id].relay)
    requires s.driver.tasks[id].relay in outputs
    ensures var later := Run(Step(s, Fire(id)), es);
      later.sampler.Reading? && later.now >= s.now + 500 ==>
        HasOutputFault(Step(later, Publish(inputs, outputs, wall)))
  {
    var r, fired := s.driver.tasks[id].relay, Step(s, Fire(id));
    assert LastCommand(fired, r, Command(false, s.now));
    StepKeepsShape(s, Fire(id));
    RunKeepsCommand(fired, es, r, Command(false, s.now));
    var later := Run(fired, es);
    if later.sampler.Reading? && later.now >= s.now + 500 {
      assert Mismatch(later.driver.commanded, r, outputs, later.now);
      PublishFaultsExactly(later, inputs, outputs, wall);
    }
  }

  /** A dispatch completes without an error. */
  predicate DispatchSucceeds(s: Sys, e: Event) {
    || (e == Answer(Landed) && s.wire != [] && (s.wire[0].owner.ByDispatch? || s.wire[0].owner.ByPulse?))
    || (e.Start? && s.queue != [] && s.driver.hwOk
        && ((s.queue[0].PulseTest? && Pulsing(s.driver, TestRelay))
            || (s.queue[0].PulseBypass? && Pulsing(s.driver, BypassRelay))))
  }

  lemma StartClears(s: Sys)
    ensures DispatchSucceeds(s, Start) ==> !HasOutputFault(DoStart(s))
    ensures HasOutputFault(s) && !HasOutputFault(DoStart(s)) ==> DispatchSucceeds(s, Start)
  {
    if s.queue != [] {
      match s.queue[0]
      case SetInhibit(_) =>
      case SetForce(_) =>
      case PulseTest(_) =>
      case PulseBypass(_) =>
    }
  }

  lemma AnswerClears(s: Sys, how: Answered)
    ensures DispatchSucceeds(s, Answer(how)) ==> !HasOutputFault(DoAnswer(s, how))
    ensures HasOutputFault(s) && !HasOutputFault(DoAnswer(s, how)) ==> DispatchSucceeds(s, Answer(how))
  {
  }

  /** Only a successful dispatch clears the output fault, and it always does. */
  lemma OnlyDispatchClears(s: Sys, e: Event)
    ensures DispatchSucceeds(s, e) ==> !HasOutputFault(Step(s, e))
    ensures HasOutputFault(s) && !HasOutputFault(Step(s, e)) ==> DispatchSucceeds(s, e)
  {
    match e
    case Start => StartClears(s);
    case Answer(how) => AnswerClears(s, how);
    case Arrive(_, request) => RequestsKeepFaultBits(s.store, request);
    case _ =>
  }

  /** A dispatch fails: its write is reported failed, or the gate refuses it. */
  predicate DispatchFails(s: Sys, e: Event) {
    || (e.Answer? && e.how != Landed && s.wire != [] && (s.wire[0].owner.ByDispatch? || s.wire[0].owner.ByPulse?))
    || (e.Start? && s.queue != [] && !s.driver.hwOk && Asserts(s.queue[0]))
  }

  /** A sample is published that finds the gate unverified, or a settled relay contradicted. */
  predicate SampleFaults(s: Sys, e: Event) {
    e.Publish? && s.sampler.Reading?
    && (!s.driver.hwOk || exists r :: Mismatch(s.driver.commanded, r, e.outputs, s.now))
  }

  /** Releases, pulse releases and resets leave the output fault alone; a reset may raise the input fault. */
  lemma OtherAnswerFaults(s: Sys, how: Answered)
    requires Shaped(s) && s.wire != [] && !s.wire[0].owner.ByDispatch? && !s.wire[0].owner.ByPulse?
    ensures DoAnswer(s, how).store ==
      if how != Landed && s.wire[0].owner == BySampler then SetInputFault(s.store, true) else s.store
  {
    match s.wire[0].owner
    case ByTask(id) => TaskAnswerIs(s, how, id);
    case BySampler => PopResetIsIdle(s, how);
    case _ =>
  }

  lemma CommandAnswerFaults(s: Sys, how: Answered)
    requires s.wire != [] && (s.wire[0].owner.ByDispatch? || s.wire[0].owner.ByPulse?)
    ensures DoAnswer(s, how).store == SetOutputFault(s.store, how != Landed)
  {
  }

  lemma AnswerFaults(s: Sys, how: Answered)
    requires Shaped(s)
    ensures HasOutputFault(DoAnswer(s, how)) <==>
      DispatchFails(s, Answer(how)) || (HasOutputFault(s) && !DispatchSucceeds(s, Answer(how)))
  {
    if s.wire != [] {
      if s.wire[0].owner.ByDispatch? || s.wire[0].owner.ByPulse? {
        CommandAnswerFaults(s, how);
      } else {
        OtherAnswerFaults(s, how);
      }
    }
  }

  lemma StartFaults(s: Sys)
    ensures HasOutputFault(DoStart(s)) <==>
      DispatchFails(s, Start) || (HasOutputFault(s) && !DispatchSucceeds(s, Start))
  {
    if s.queue != [] {
      match s.queue[0] case SetInhibit(_) => case SetForce(_) => case PulseTest(_) => case PulseBypass(_) =>
    }
  }

  /** Exact: after any step the output fault is up if and only if a dispatch failed, a sample found
      something wrong, or it was up and no dispatch succeeded. */
  lemma OutputFaultExactly(s: Sys, e: Event)
    requires Shaped(s)
    ensures HasOutputFault(Step(s, e)) <==>
      DispatchFails(s, e) || SampleFaults(s, e) || (HasOutputFault(s) && !DispatchSucceeds(s, e))
  {
    match e
    case Start => StartFaults(s);
    case Answer(how) => AnswerFaults(s, how);
    case Arrive(_, request) => RequestsKeepFaultBits(s.store, request);
    case _ =>
  }

  lemma AnswerInputFault(s: Sys, how: Answered)
    requires Shaped(s) && s.wire != []
    ensures INPUT_BIT in DoAnswer(s, how).store.snap.faultBits <==>
      (how != Landed && s.wire[0].owner == BySampler) || INPUT_BIT in s.store.snap.faultBits
  {
    if s.wire[0].owner.ByDispatch? || s.wire[0].owner.ByPulse? {
      CommandAnswerFaults(s, how);
    } else {
      OtherAnswerFaults(s, how);
    }
  }

  lemma StartStore(s: Sys)
    ensures DoStart(s).store in {s.store, SetOutputFault(s.store, true), SetOutputFault(s.store, false)}
  {
    if s.queue != [] {
      match s.queue[0] case SetInhibit(_) => case SetForce(_) => case PulseTest(_) => case PulseBypass(_) =>
    }
  }

  lemma StartKeepsInputFault(s: Sys)
    ensures INPUT_BIT in DoStart(s).store.snap.faultBits <==> INPUT_BIT in s.store.snap.faultBits
  {
    StartStore(s);
    OutputFaultKeepsInputFault(s.store, true);
    OutputFaultKeepsInputFault(s.store, false);
  }

  lemma OutputFaultKeepsInputFault(s: Store, on: bool)
    ensures INPUT_BIT in SetOutputFault(s, on).snap.faultBits <==> INPUT_BIT in s.snap.faultBits
  {
  }

  /** Exact: after any step the input fault is up if and only if a cycle failed, in its reset or in its
      reads, or it was up and no sample was published. */
  lemma InputFaultExactly(s: Sys, e: Event)
    requires Shaped(s)
    ensures INPUT_BIT in Step(s, e).store.snap.faultBits <==>
      || (e.CycleFail? && s.sampler.Reading?)
      || (e.Answer? && e.how != Landed && s.wire != [] && s.wire[0].owner == BySampler)
      || (INPUT_BIT in s.store.snap.faultBits && !(e.Publish? && s.sampler.Reading?))
  {
    match e
    case Start => StartKeepsInputFault(s);
    case Answer(how) => if s.wire != [] { AnswerInputFault(s, how); }
    case Arrive(_, request) => RequestsKeepFaultBits(s.store, request);
    case _ =>
  }

  /** Exact: what one step records as commanded. A write that lands records its relay and value, except
      a pulse's release, whose OFF was recorded when its window ended; nothing else records anything. */
  lemma RecordsExactly(s: Sys, e: Event)
    requires Shaped(s)
    ensures var before, after := s.driver.commanded, Step(s, e).driver.commanded;
      if e == Answer(Landed) && s.wire != [] && !s.wire[0].owner.ByTask? then
        after == before[s.wire[0].relay := Command(s.wire[0].value, s.now)]
      else if e.Fire? && e.id in s.driver.tasks && s.driver.tasks[e.id].pc.Window?
              && s.now >= s.driver.tasks[e.id].pc.until then
        after == before[s.driver.tasks[e.id].relay := Command(false, s.now)]
      else after == before
  {
    match e
    case Answer(how) => if s.wire != [] { AnswerRecords(s, how); }
    case Start => StartIsLocal(s);
    case _ =>
  }

  /** No request touches the stored fault bits. */
  lemma RequestsKeepFaultBits(s: Store, r: Request)
    ensures Handle(s, r).store.snap.faultBits == s.snap.faultBits
  {
    if IsHoldingWrite(r) {
      WritesAreAllOrNothing(s, r);
    }
  }

  // ─── Attended or reported, whatever fails ─────────────────────────

  ghost predicate InWindow(tasks: map<nat, PulseTask>, r: Relay) {
    exists id :: id in tasks && tasks[id].relay == r && tasks[id].pc.Window?
  }

  /** The ledger says ON for a pulse relay only while some task is in its window; once the reset is
      done it says something for each of them. */
  ghost predicate LedgerHonest(s: Sys) {
    && (forall r :: r in s.driver.commanded && !Maintained(r) && s.driver.commanded[r].value ==>
          InWindow(s.driver.tasks, r))
    && forall k :: 0 <= k < |RESET_ORDER| && k < ResetDone(s) ==> RESET_ORDER[k] in s.driver.commanded
  }

  /** A task that fires leaves the others where they were. */
  lemma OtherFireKeeps(s: Sys, other: nat, id: nat)
    requires id in s.driver.tasks && other != id
    ensures var after := DoFire(s, other).driver;
      id in after.tasks && after.tasks[id] == s.driver.tasks[id] && after.nextTask == s.driver.nextTask
  {
  }

  lemma FireRecords(s: Sys, id: nat)
    ensures var after := DoFire(s, id).driver;
      || after == s.driver
      || (id in s.driver.tasks && s.driver.tasks[id].pc.RetryAt? && after.commanded == s.driver.commanded)
      || (id in s.driver.tasks
          && after.commanded == s.driver.commanded[s.driver.tasks[id].relay := Command(false, s.now)])
    ensures ResetDone(DoFire(s, id)) == ResetDone(s)
  {
  }

  lemma FireLedger(s: Sys, id: nat)
    requires LedgerHonest(s)
    ensures LedgerHonest(DoFire(s, id))
  {
    var after := DoFire(s, id);
    FireRecords(s, id);
    forall r | r in after.driver.commanded && !Maintained(r) && after.driver.commanded[r].value
      ensures InWindow(after.driver.tasks, r)
    {
      var x :| x in s.driver.tasks && s.driver.tasks[x].relay == r && s.driver.tasks[x].pc.Window?;
      if x != id {
        OtherFireKeeps(s, id, x);
      }
    }
  }

  /** A task that is answered was writing, not in its window. */
  lemma AnsweredTaskWrites(s: Sys, id: nat)
    requires Shaped(s) && s.wire != [] && s.wire[0].owner == ByTask(id)
    ensures id in s.driver.tasks ==> s.driver.tasks[id].pc.Writing?
  {
  }

  /** So an answer leaves every task in its window where it was. */
  lemma AnswerKeepsWindow(s: Sys, how: Answered, x: nat)
    requires Shaped(s) && s.wire != [] && x in s.driver.tasks && s.driver.tasks[x].pc.Window?
    ensures var after := DoAnswer(s, how).driver.tasks; x in after && after[x] == s.driver.tasks[x]
  {
    if s.wire[0].owner.ByTask? {
      AnsweredTaskWrites(s, s.wire[0].owner.id);
      TaskAnswerIs(s, how, s.wire[0].owner.id);
    } else {
      OtherAnswerTasks(s, how);
      FreshTaskId(s, x);
    }
  }

  lemma FreshTaskId(s: Sys, x: nat)
    requires Shaped(s) && x in s.driver.tasks
    ensures x < s.driver.nextTask
  {
  }

  lemma AnswerKeepsWindows(s: Sys, how: Answered, r: Relay)
    requires Shaped(s) && s.wire != [] && InWindow(s.driver.tasks, r)
    ensures InWindow(DoAnswer(s, how).driver.tasks, r)
  {
    var x :| x in s.driver.tasks && s.driver.tasks[x].relay == r && s.driver.tasks[x].pc.Window?;
    AnswerKeepsWindow(s, how, x);
  }

  lemma AnswerResets(s: Sys, how: Answered)
    requires Shaped(s) && s.wire != []
    ensures var after := DoAnswer(s, how);
      ResetDone(after) == if how == Landed && s.wire[0].owner == BySampler then ResetDone(s) + 1
                          else if s.wire[0].owner == BySampler then 0 else ResetDone(s)
    ensures s.wire[0].owner == BySampler ==>
      ResetDone(s) < |RESET_ORDER| && s.wire[0].relay == RESET_ORDER[ResetDone(s)]
  {
    if s.wire[0].owner == BySampler {
      PopResetIsIdle(s, how);
    }
  }

  lemma AnswerLedger(s: Sys, how: Answered)
    requires Shaped(s) && LedgerHonest(s) && s.wire != []
    ensures LedgerHonest(DoAnswer(s, how))
  {
    var w, after := s.wire[0], DoAnswer(s, how);
    AnswerRecords(s, how);
    AnswerResets(s, how);
    assert w in s.wire && TypedWrite(s.driver, w);
    forall r | r in after.driver.commanded && !Maintained(r) && after.driver.commanded[r].value
      ensures InWindow(after.driver.tasks, r)
    {
      if r == w.relay && how == Landed && w.owner.ByPulse? {
        assert after.driver.tasks[s.driver.nextTask].relay == r;
      } else {
        AnswerKeepsWindows(s, how, r);
      }
    }
  }

  lemma StepLedger(s: Sys, e: Event)
    requires Shaped(s) && LedgerHonest(s)
    requires e.CycleBegin? && !s.outputsReset ==> forall r :: r in s.driver.commanded ==> !s.driver.commanded[r].value
    ensures LedgerHonest(Step(s, e))
  {
    match e
    case Answer(how) => if s.wire != [] { AnswerLedger(s, how); }
    case Fire(id) => FireLedger(s, id);
    case Start => StartLedger(s);
    case CycleBegin => CycleBeginLedger(s);
    case _ =>
  }

  lemma StartLedger(s: Sys)
    requires LedgerHonest(s)
    ensures LedgerHonest(DoStart(s))
  {
    StartIsLocal(s);
  }

  lemma CycleBeginLedger(s: Sys)
    requires LedgerHonest(s)
    requires !s.outputsReset ==> forall r :: r in s.driver.commanded ==> !s.driver.commanded[r].value
    ensures LedgerHonest(DoCycleBegin(s))
  {
  }

  /** Before the reset nothing is ever recorded as ON. */
  predicate NothingOn(s: Sys) {
    !s.outputsReset ==> forall r :: r in s.driver.commanded ==> !s.driver.commanded[r].value
  }

  lemma StepNothingOn(boot: Store, s: Sys, e: Event)
    requires Shaped(s) && NothingOn(s) && (s.publishes == 0 ==> Unpublished(boot, s))
    ensures NothingOn(Step(s, e))
  {
    match e
    case Answer(how) => if s.wire != [] { AnswerNothingOn(boot, s, how); }
    case Start => StartIsLocal(s);
    case Fire(id) => FireRecords(s, id);
    case _ =>
  }

  lemma AnswerNothingOn(boot: Store, s: Sys, how: Answered)
    requires Shaped(s) && NothingOn(s) && (s.publishes == 0 ==> Unpublished(boot, s)) && s.wire != []
    ensures NothingOn(DoAnswer(s, how))
  {
    AnswerRecords(s, how);
    assert s.wire[0] in s.wire;
    if s.outputsReset {
      StaysReset(s, Answer(how));
    }
  }

  lemma {:induction false} RunLedger(boot: Store, s: Sys, es: seq<Event>)
    requires BootLike(boot) && Shaped(s) && (s.publishes == 0 ==> Unpublished(boot, s))
    requires LedgerHonest(s) && NothingOn(s) && TaskTimes(s)
    ensures Shaped(Run(s, es)) && LedgerHonest(Run(s, es)) && TaskTimes(Run(s, es))
    decreases |es|
  {
    if es != [] {
      StepLedger(s, es[0]);
      StepNothingOn(boot, s, es[0]);
      StepTimes(s, es[0]);
      StepKeepsShape(s, es[0]);
      KeepsUnpublished(boot, s, es[0]);
      RunLedger(boot, Step(s, es[0]), es[1..]);
    }
  }

  /** With no hypothesis on failed writes at all: once the start-up reset is done, an energised Test or
      Bypass relay is attended by a live release task, or its last record says OFF, and from half a
      second after that record every honest sample raises the output fault. */
  lemma EnergisedIsAttendedOrReported(
      on: set<Relay>, persisted: Persisted, wall: int, hwOk: bool, now: int, es: seq<Event>,
      r: Relay, inputs: InputSnapshot, at: int)
    ensures var s := Run(Boot(on, persisted, wall, hwOk, now), es);
      s.outputsReset && r in s.on && !Maintained(r) ==>
        || (exists id :: Attends(s, id, r))
        || (r in s.driver.commanded && !s.driver.commanded[r].value
            && (s.sampler.Reading? && s.now >= s.driver.commanded[r].at + 500 ==>
                  HasOutputFault(Step(s, Publish(inputs, s.on, at)))))
  {
    var s0 := Boot(on, persisted, wall, hwOk, now);
    RunLedger(s0.store, s0, es);
    var s := Run(s0, es);
    if s.outputsReset && r in s.on && !Maintained(r) {
      assert r == RESET_ORDER[0] || r == RESET_ORDER[3];
      assert r in s.driver.commanded;
      if s.driver.commanded[r].value {
        var id :| id in s.driver.tasks && s.driver.tasks[id].relay == r && s.driver.tasks[id].pc.Window?;
        assert Attends(s, id, r);
      } else if s.sampler.Reading? && s.now >= s.driver.commanded[r].at + 500 {
        assert Mismatch(s.driver.commanded, r, s.on, s.now);
        PublishFaultsExactly(s, inputs, s.on, at);
      }
    }
  }
}
