/** How long a pulse lasts: its window and its retries over whole runs, and in timely runs a bound on
    how long an energised pulse relay stays on. */
module PulseTiming {
  import opened Domain
  import opened Registers
  import opened AdamOutputs
  import opened ControlSystem
  import opened SystemShape
  import opened ReleaseTiming
  import opened PulseRelease

  // ─── A task waits exactly as long as it should ────────────────────

  /** The task is waiting, in its window or to retry, until `end`. */
  predicate Waits(t: PulseTask, end: int) {
    t.pc == Window(end) || t.pc == RetryAt(end)
  }

  /** Somewhere in the run the task is resumed at or after `end`. */
  predicate Fired(s: Sys, es: seq<Event>, id: nat, end: int)
    decreases |es|
  {
    es != [] && ((es[0] == Fire(id) && s.now >= end) || Fired(Step(s, es[0]), es[1..], id, end))
  }

  /** The wait that ended at `end` is over, and never comes back. */
  predicate Past(s: Sys, id: nat, end: int) {
    && s.now >= end && id < s.driver.nextTask
    && (id in s.driver.tasks ==>
          var pc := s.driver.tasks[id].pc; pc.Writing? || (pc.RetryAt? && pc.at > end))
  }

  lemma FireEndsWait(s: Sys, id: nat, end: int)
    requires Shaped(s) && id in s.driver.tasks && Waits(s.driver.tasks[id], end)
    ensures s.now < end ==> DoFire(s, id) == s
    ensures s.now >= end ==>
      && Past(DoFire(s, id), id, end)
      && DoFire(s, id).wire == s.wire + [CoilWrite(s.driver.tasks[id].relay, false, ByTask(id))]
  {
  }

  /** Nothing but its own resumption ends a wait. */
  lemma StepKeepsWait(s: Sys, e: Event, id: nat, end: int)
    requires Shaped(s) && s.outputsReset && id in s.driver.tasks && Waits(s.driver.tasks[id], end)
    requires !(e == Fire(id) && s.now >= end)
    ensures var after := Step(s, e).driver.tasks; id in after && after[id] == s.driver.tasks[id]
  {
    match e
    case Answer(how) => if s.wire != [] { AnswerKeepsWait(s, how, id, end); }
    case Fire(other) => if other == id { FireEndsWait(s, id, end); } else { OtherFireKeeps(s, other, id); }
    case _ => LeavesPulses(s, e);
  }

  lemma AnswerKeepsWait(s: Sys, how: Answered, id: nat, end: int)
    requires Shaped(s) && s.wire != [] && id in s.driver.tasks && Waits(s.driver.tasks[id], end)
    ensures var after := DoAnswer(s, how).driver.tasks; id in after && after[id] == s.driver.tasks[id]
  {
    if s.wire[0].owner.ByTask? {
      AnsweredTaskWrites(s, s.wire[0].owner.id);
      TaskAnswerIs(s, how, s.wire[0].owner.id);
    } else {
      OtherAnswerTasks(s, how);
      FreshTaskId(s, id);
    }
  }

  lemma StepKeepsPast(s: Sys, e: Event, id: nat, end: int)
    requires Shaped(s) && s.outputsReset && Past(s, id, end)
    ensures Past(Step(s, e), id, end)
  {
    match e
    case Answer(how) => if s.wire != [] { AnswerKeepsPast(s, how, id, end); }
    case Fire(other) =>
      if id in s.driver.tasks && other != id {
        OtherFireKeeps(s, other, id);
      }
    case _ => LeavesPulses(s, e);
  }

  lemma AnswerKeepsPast(s: Sys, how: Answered, id: nat, end: int)
    requires Past(s, id, end) && s.wire != []
    ensures Past(DoAnswer(s, how), id, end)
  {
    if s.wire[0].owner.ByTask? {
      TaskAnswerIs(s, how, s.wire[0].owner.id);
    } else {
      OtherAnswerTasks(s, how);
    }
  }

  lemma {:induction false} RunKeepsPast(s: Sys, es: seq<Event>, id: nat, end: int)
    requires Shaped(s) && s.outputsReset && Past(s, id, end)
    ensures Past(Run(s, es), id, end)
    decreases |es|
  {
    if es != [] {
      StepKeepsPast(s, es[0], id, end);
      StepKeepsShape(s, es[0]);
      StaysReset(s, es[0]);
      RunKeepsPast(Step(s, es[0]), es[1..], id, end);
    }
  }

  /** Exact, over every run: a waiting task is still waiting just as it was if and only if it has not
      been resumed at or after the end of its wait; until then it holds no write, and when it is it
      issues exactly one OFF write for its relay. */
  lemma {:induction false} WaitLastsExactly(s: Sys, es: seq<Event>, id: nat, end: int)
    requires Shaped(s) && s.outputsReset && id in s.driver.tasks && Waits(s.driver.tasks[id], end)
    ensures var later := Run(s, es);
      && (id in later.driver.tasks && later.driver.tasks[id] == s.driver.tasks[id] <==> !Fired(s, es, id, end))
      && (!Fired(s, es, id, end) ==>
            && Pending(later.wire, ByTask(id)) == 0
            && Step(later, Fire(id)).wire ==
                 if later.now < end then later.wire
                 else later.wire + [CoilWrite(s.driver.tasks[id].relay, false, ByTask(id))])
    decreases |es|
  {
    if es == [] {
      FireEndsWait(s, id, end);
    } else {
      var after := Step(s, es[0]);
      StepKeepsShape(s, es[0]);
      StaysReset(s, es[0]);
      if es[0] == Fire(id) && s.now >= end {
        FireEndsWait(s, id, end);
        RunKeepsPast(after, es[1..], id, end);
      } else {
        StepKeepsWait(s, es[0], id, end);
        WaitLastsExactly(after, es[1..], id, end);
      }
    }
  }

  /** A pulse that lands is held for the requested duration clamped to 500..1500 ms: in every run that
      follows, its task waits in that window until it is resumed at or after the end, writes nothing
      before, and then writes OFF. */
  lemma PulseWindowIsClamped(s: Sys, ms: int, es: seq<Event>)
    requires Shaped(s) && s.outputsReset && s.wire != [] && s.wire[0].owner == ByPulse(ms)
    ensures var pulsed, id, end := Step(s, Answer(Landed)), s.driver.nextTask, s.now + Clamp(ms);
      var later, relay := Run(pulsed, es), s.wire[0].relay;
      && s.now + 500 <= end <= s.now + 1500
      && (id in later.driver.tasks && later.driver.tasks[id] == PulseTask(relay, Window(end), s.now, 0) <==>
            !Fired(pulsed, es, id, end))
      && (!Fired(pulsed, es, id, end) ==>
            && Pending(later.wire, ByTask(id)) == 0
            && Step(later, Fire(id)).wire ==
                 if later.now < end then later.wire else later.wire + [CoilWrite(relay, false, ByTask(id))])
  {
    StepKeepsShape(s, Answer(Landed));
    StaysReset(s, Answer(Landed));
    OtherAnswerTasks(s, Landed);
    WaitLastsExactly(Step(s, Answer(Landed)), es, s.driver.nextTask, s.now + Clamp(ms));
  }

  /** An OFF write that fails is tried again, in every run that follows, exactly when the task is next
      resumed at least 250 ms later. */
  lemma RetryIsPaced(s: Sys, id: nat, how: Answered, es: seq<Event>)
    requires Shaped(s) && s.outputsReset && s.wire != [] && s.wire[0].owner == ByTask(id)
    requires id in s.driver.tasks && how != Landed
    ensures var failed, end := Step(s, Answer(how)), s.now + 250;
      var later := Run(failed, es);
      && (id in later.driver.tasks && later.driver.tasks[id] == Retrying(s, s.driver.tasks[id]) <==>
            !Fired(failed, es, id, end))
      && (!Fired(failed, es, id, end) ==>
            && Pending(later.wire, ByTask(id)) == 0
            && Step(later, Fire(id)).wire ==
                 if later.now < end then later.wire
                 else later.wire + [CoilWrite(s.driver.tasks[id].relay, false, ByTask(id))])
  {
    StepKeepsShape(s, Answer(how));
    StaysReset(s, Answer(how));
    TaskAnswerIs(s, how, id);
    WaitLastsExactly(Step(s, Answer(how)), es, id, s.now + 250);
  }

  // ─── Timely runs: how long a pulse relay can stay on ──────────────

  /** The latest time that may pass for a task: `late` after its wait, `write` after its write. */
  predicate InTime(b: Bounds, t: PulseTask, now: int) {
    match t.pc
    case Window(until) => now <= until + b.late
    case RetryAt(at) => now <= at + b.late
    case Writing(issued) => now <= issued + b.write
  }

  predicate TimelyTaskStep(b: Bounds, s: Sys, e: Event) {
    e.Tick? ==> forall id :: id in s.driver.tasks ==> InTime(b, s.driver.tasks[id], s.now + e.ms)
  }

  predicate TimelyTasks(b: Bounds, s: Sys, es: seq<Event>)
    decreases |es|
  {
    es != [] ==> TimelyTaskStep(b, s, es[0]) && TimelyTasks(b, Step(s, es[0]), es[1..])
  }

  /** The latest end of the wait before OFF write number `k + 1`, counted from the pulse. */
  function WaitLimit(b: Bounds, k: nat): nat {
    if k == 0 then PULSE_MAX_MS else WaitLimit(b, k - 1) + b.late + b.write + PULSE_RELEASE_RETRY_MS
  }

  lemma {:induction false} WaitLimitClosedForm(b: Bounds, k: nat)
    ensures WaitLimit(b, k) == PULSE_MAX_MS + k * (b.late + b.write + PULSE_RELEASE_RETRY_MS)
  {
    if k > 0 {
      WaitLimitClosedForm(b, k - 1);
      var p := b.late + b.write + PULSE_RELEASE_RETRY_MS;
      assert k * p == (k - 1) * p + p;
    }
  }

  predicate OnTime(b: Bounds, t: PulseTask, now: int) {
    && InTime(b, t, now)
    && match t.pc
       case Window(until) => t.failed == 0 && until <= t.born + WaitLimit(b, 0)
       case RetryAt(at) => at <= t.born + WaitLimit(b, t.failed)
       case Writing(issued) => issued <= t.born + WaitLimit(b, t.failed) + b.late
  }

  predicate TasksOnTime(b: Bounds, s: Sys) {
    forall id :: id in s.driver.tasks ==> OnTime(b, s.driver.tasks[id], s.now)
  }

  lemma FireOnTime(b: Bounds, s: Sys, id: nat)
    requires TasksOnTime(b, s)
    ensures TasksOnTime(b, DoFire(s, id))
  {
    var after := DoFire(s, id);
    forall x | x in after.driver.tasks ensures OnTime(b, after.driver.tasks[x], after.now) {
      if x != id {
        OtherFireKeeps(s, id, x);
      }
    }
  }

  lemma AnswerOnTime(b: Bounds, s: Sys, how: Answered)
    requires Shaped(s) && TasksOnTime(b, s) && s.wire != []
    ensures TasksOnTime(b, DoAnswer(s, how))
  {
    if s.wire[0].owner.ByTask? {
      var id := s.wire[0].owner.id;
      AnsweredTaskWrites(s, id);
      TaskAnswerIs(s, how, id);
      if id in s.driver.tasks {
        var t := s.driver.tasks[id];
        assert WaitLimit(b, t.failed + 1) == WaitLimit(b, t.failed) + b.late + b.write + PULSE_RELEASE_RETRY_MS;
      }
    } else {
      OtherAnswerTasks(s, how);
    }
  }

  lemma StepOnTime(b: Bounds, s: Sys, e: Event)
    requires Shaped(s) && TasksOnTime(b, s) && TimelyTaskStep(b, s, e)
    ensures TasksOnTime(b, Step(s, e))
  {
    match e
    case Answer(how) => if s.wire != [] { AnswerOnTime(b, s, how); }
    case Fire(id) => FireOnTime(b, s, id);
    case _ => OthersKeepTasks(s, e);
  }

  lemma OthersKeepTasks(s: Sys, e: Event)
    requires !e.Answer? && !e.Fire?
    ensures var after := Step(s, e);
      && after.now == s.now + (if e.Tick? then e.ms else 0)
      && forall id :: id in after.driver.tasks ==> id in s.driver.tasks && after.driver.tasks[id] == s.driver.tasks[id]
  {
    match e
    case Start => StartIsLocal(s);
    case _ =>
  }

  lemma {:induction false} RunOnTime(b: Bounds, s: Sys, es: seq<Event>)
    requires Shaped(s) && TasksOnTime(b, s) && TimelyTasks(b, s, es)
    ensures TasksOnTime(b, Run(s, es))
    decreases |es|
  {
    if es != [] {
      StepOnTime(b, s, es[0]);
      StepKeepsShape(s, es[0]);
      RunOnTime(b, Step(s, es[0]), es[1..]);
    }
  }

  /** Bounded pulse: in every timely run from boot that never loses cover, an energised Test or Bypass
      relay has been on for at most the longest window, one lateness and one write, plus a retry period
      for every OFF write of its task that has failed. */
  lemma PulseExposureIsBounded(
      b: Bounds, on: set<Relay>, persisted: Persisted, wall: int, hwOk: bool, now: int, es: seq<Event>, r: Relay)
    requires KeepsCover(Boot(on, persisted, wall, hwOk, now), es)
    requires TimelyTasks(b, Boot(on, persisted, wall, hwOk, now), es)
    ensures var s := Run(Boot(on, persisted, wall, hwOk, now), es);
      s.outputsReset && r in s.on && !Maintained(r) ==>
        && r in s.lit
        && exists id :: Attends(s, id, r)
             && s.now - s.lit[r] <= 1500 + b.late + b.write
                  + s.driver.tasks[id].failed * (b.late + b.write + 250)
  {
    var s0 := Boot(on, persisted, wall, hwOk, now);
    EnergisedPulseIsAttended(on, persisted, wall, hwOk, now, es, r);
    RunOnTime(b, s0, es);
    var s := Run(s0, es);
    if s.outputsReset && r in s.on && !Maintained(r) {
      var id :| Attends(s, id, r) && s.driver.tasks[id].born <= s.lit[r];
      WaitLimitClosedForm(b, s.driver.tasks[id].failed);
      assert s.now - s.lit[r] <= WaitLimit(b, s.driver.tasks[id].failed) + b.late + b.write;
    }
  }
}
