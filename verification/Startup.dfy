/** The start-up guarantee: nothing is commanded, and nothing but faults published, before every
    command relay has been released. */
module Startup {
  import opened Domain
  import opened FaultBits
  import opened Registers
  import opened CommsLoss
  import opened AdamOutputs
  import opened ModbusServer
  import opened ControlSystem
  import opened SystemShape

  /** The store is as booted, but for the input-fault bit and the rejection latch. */
  predicate AsBooted(boot: Store, s: Store) {
    && s.recent == boot.recent
    && s.snap == boot.snap.(faultBits := s.snap.faultBits, modeReject := s.snap.modeReject)
    && s.snap.faultBits - {INPUT_BIT} == boot.snap.faultBits - {INPUT_BIT}
  }

  /** How many of the four resets have landed in the current attempt. */
  function ResetDone(s: Sys): nat {
    if s.outputsReset then |RESET_ORDER| else if s.sampler.Resetting? then s.sampler.k else 0
  }

  /** What holds until the first sample is published. */
  ghost predicate Unpublished(boot: Store, s: Sys) {
    && AsBooted(boot, s.store)
    && s.queue == [] && s.driver.tasks == map[]
    && (forall w :: w in s.wire ==> !w.value && (w.owner == ByWatchdog || w.owner == BySampler))
    && ResetDone(s) <= |RESET_ORDER|
    && forall k :: 0 <= k < ResetDone(s) ==> RESET_ORDER[k] !in s.on
  }

  predicate BootLike(boot: Store) {
    boot.snap.atsMode == UnknownMode && boot.snap.active == {} && forall b :: b in boot.snap.faultBits ==> b < 16
  }

  lemma WakeUnpublished(boot: Store, s: Sys)
    requires BootLike(boot) && Shaped(s) && Unpublished(boot, s)
    ensures Unpublished(boot, DoWake(s))
  {
    if Attempts(s) {
      IssueUnpublished(boot, s, CoilWrite(InhibitRelay, false, ByWatchdog));
    }
  }

  lemma IssueUnpublished(boot: Store, s: Sys, w: CoilWrite)
    requires Unpublished(boot, s) && !w.value && (w.owner == ByWatchdog || w.owner == BySampler)
    ensures Unpublished(boot, Issue(s, w.relay, w.value, w.owner))
  {
  }

  lemma CycleBeginUnpublished(boot: Store, s: Sys)
    requires BootLike(boot) && Shaped(s) && Unpublished(boot, s)
    ensures Unpublished(boot, DoCycleBegin(s))
  {
  }

  lemma StepUnpublished(boot: Store, s: Sys, e: Event)
    requires BootLike(boot) && Shaped(s) && Unpublished(boot, s)
    requires !(e.Publish? && s.sampler.Reading?)
    ensures Unpublished(boot, Step(s, e))
  {
    match e
    case Arrive(_, request) => UnknownModeRefuses(s.store, request);
    case Answer(how) => if s.wire != [] { AnswerUnpublished(boot, s, how); }
    case Wake => WakeUnpublished(boot, s);
    case CycleBegin => CycleBeginUnpublished(boot, s);
    case _ =>
  }

  lemma AnswerUnpublished(boot: Store, s: Sys, how: Answered)
    requires BootLike(boot) && Shaped(s) && Unpublished(boot, s) && s.wire != []
    ensures Unpublished(boot, DoAnswer(s, how))
  {
    assert s.wire[0] in s.wire;
    if s.wire[0].owner == BySampler {
      ResetAnswerUnpublished(boot, s, how);
    } else {
      ReleaseAnswerUnpublished(boot, s, how);
    }
  }

  lemma PopUnpublished(boot: Store, s: Sys, how: Answered)
    requires Unpublished(boot, s) && s.wire != []
    ensures Unpublished(boot, Popped(s, how))
    ensures how == Landed ==> s.wire[0].relay !in Popped(s, how).on
  {
    assert s.wire[0] in s.wire && forall w :: w in s.wire[1..] ==> w in s.wire;
  }

  lemma ReleaseAnswerUnpublished(boot: Store, s: Sys, how: Answered)
    requires Shaped(s) && Unpublished(boot, s) && s.wire != [] && s.wire[0].owner == ByWatchdog
    ensures Unpublished(boot, DoAnswer(s, how))
  {
    PopUnpublished(boot, s, how);
    if how == Landed && s.watchdog.ReleasingInhibit? {
      IssueUnpublished(boot, Popped(s, how), CoilWrite(ForceRelay, false, ByWatchdog));
    }
  }

  lemma ResetAnswerUnpublished(boot: Store, s: Sys, how: Answered)
    requires BootLike(boot) && Shaped(s) && Unpublished(boot, s) && s.wire != [] && s.wire[0].owner == BySampler
    ensures Unpublished(boot, DoAnswer(s, how))
  {
    PopUnpublished(boot, s, how);
    PopResetIsIdle(s, how);
    if how == Landed && s.sampler.k + 1 < |RESET_ORDER| {
      IssueUnpublished(boot, Popped(s, how), CoilWrite(RESET_ORDER[s.sampler.k + 1], false, BySampler));
    }
  }

  lemma {:induction false} RunUnpublished(boot: Store, s: Sys, es: seq<Event>)
    requires BootLike(boot) && Shaped(s) && (s.publishes == 0 ==> Unpublished(boot, s))
    ensures Shaped(Run(s, es)) && (Run(s, es).publishes == 0 ==> Unpublished(boot, Run(s, es)))
    decreases |es|
  {
    if es != [] {
      StepKeepsShape(s, es[0]);
      if Step(s, es[0]).publishes == 0 {
        StepCounts(s, es[0]);
        StepUnpublished(boot, s, es[0]);
      }
      RunUnpublished(boot, Step(s, es[0]), es[1..]);
    }
  }

  lemma StepCounts(s: Sys, e: Event)
    ensures Step(s, e).publishes == s.publishes + (if e.Publish? && s.sampler.Reading? then 1 else 0)
  {
    match e
    case Answer(how) => AnswerIsLocal(s, how);
    case _ =>
  }

  /** From any relay state a previous instance left, whatever arrives and whatever fails: until the
      first sample is published no command has been dispatched or written, and the store is as booted
      but for the input-fault bit and the rejection latch. When the sampling loop gets to read its
      first inputs, all four command relays are off and nothing outstanding turns one on. */
  lemma NothingBeforeReset(on: set<Relay>, persisted: Persisted, wall: int, hwOk: bool, now: int, es: seq<Event>)
    ensures var s0 := Boot(on, persisted, wall, hwOk, now);
      var s := Run(s0, es);
      s.publishes == 0 ==>
        && s.queue == [] && (forall w :: w in s.wire ==> !w.value)
        && AsBooted(s0.store, s.store)
        && s.driver.tasks == map[]
        && (s.sampler.Reading? ==> s.on == {})
  {
    var s0 := Boot(on, persisted, wall, hwOk, now);
    RunUnpublished(s0.store, s0, es);
    var s := Run(s0, es);
    if s.publishes == 0 && s.sampler.Reading? {
      assert RESET_ORDER[0] !in s.on && RESET_ORDER[1] !in s.on && RESET_ORDER[2] !in s.on && RESET_ORDER[3] !in s.on;
      forall r | r in s.on ensures false {
        match r case TestRelay => case ForceRelay => case InhibitRelay => case BypassRelay =>
      }
    }
  }

  /** So at the moment the first sample is published every command relay is off and no command waits. */
  lemma FirstSampleFindsRelaysOff(on: set<Relay>, persisted: Persisted, wall: int, hwOk: bool, now: int,
                                  es: seq<Event>, inputs: InputSnapshot, outputs: set<Relay>, at: int)
    ensures var s := Run(Boot(on, persisted, wall, hwOk, now), es);
      var after := Step(s, Publish(inputs, outputs, at));
      s.publishes == 0 && after.publishes == 1 ==> after.on == {} && after.queue == []
  {
    NothingBeforeReset(on, persisted, wall, hwOk, now, es);
    StepCounts(Run(Boot(on, persisted, wall, hwOk, now), es), Publish(inputs, outputs, at));
  }
}
