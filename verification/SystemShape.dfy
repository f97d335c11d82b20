/** The structural invariant of every run: each outstanding coil write belongs to a task that awaits it. */
module SystemShape {
  import opened Domain
  import opened Registers
  import opened CommsLoss
  import opened AdamOutputs
  import opened ModbusServer
  import opened ControlSystem

  predicate Maintained(r: Relay) {
    r == InhibitRelay || r == ForceRelay
  }

  /** How many outstanding writes `o` has issued. */
  function Pending(wire: seq<CoilWrite>, o: Owner): nat {
    if wire == [] then 0 else (if wire[0].owner == o then 1 else 0) + Pending(wire[1..], o)
  }

  lemma {:induction false} PendingIssue(wire: seq<CoilWrite>, w: CoilWrite)
    ensures forall o :: Pending(wire + [w], o) == Pending(wire, o) + (if w.owner == o then 1 else 0)
  {
    if wire == [] {
      assert [w][1..] == [];
    } else {
      PendingIssue(wire[1..], w);
      assert (wire + [w])[1..] == wire[1..] + [w];
    }
  }

  lemma {:induction false} PendingNone(wire: seq<CoilWrite>, o: Owner)
    requires forall w :: w in wire ==> w.owner != o
    ensures Pending(wire, o) == 0
  {
    if wire != [] {
      PendingNone(wire[1..], o);
    }
  }

  predicate TypedWrite(d: Driver, w: CoilWrite) {
    match w.owner
    case ByDispatch => Maintained(w.relay)
    case ByPulse(_) => !Maintained(w.relay) && w.value
    case ByWatchdog => Maintained(w.relay) && !w.value
    case ByTask(id) =>
      !Maintained(w.relay) && !w.value && id < d.nextTask && (id in d.tasks ==> d.tasks[id].relay == w.relay)
    case BySampler => !w.value
  }

  ghost predicate TypedWire(s: Sys) {
    forall w :: w in s.wire ==> TypedWrite(s.driver, w)
  }

  /** The watchdog has exactly the write outstanding that its program counter awaits. */
  ghost predicate WatchdogAwaits(s: Sys) {
    && Pending(s.wire, ByWatchdog) == (if s.watchdog.Sleeping? then 0 else 1)
    && forall w :: w in s.wire && w.owner == ByWatchdog ==>
         w.relay == if s.watchdog.ReleasingInhibit? then InhibitRelay else ForceRelay
  }

  /** So does every pulse-release task. */
  ghost predicate TasksAwait(s: Sys) {
    forall id :: id in s.driver.tasks ==>
      && id < s.driver.nextTask
      && !Maintained(s.driver.tasks[id].relay)
      && Pending(s.wire, ByTask(id)) == (if s.driver.tasks[id].pc.Writing? then 1 else 0)
  }

  /** And so does the start-up reset, which precedes everything the sampling loop reads. */
  ghost predicate SamplerAwaits(s: Sys) {
    && Pending(s.wire, BySampler) == (if s.sampler.Resetting? then 1 else 0)
    && (s.sampler.Resetting? ==> s.sampler.k < |RESET_ORDER| && !s.outputsReset)
    && (s.sampler.Reading? ==> s.outputsReset)
    && (!s.outputsReset ==> s.publishes == 0)
    && forall w :: w in s.wire && w.owner == BySampler ==>
         s.sampler.Resetting? && w.relay == RESET_ORDER[s.sampler.k]
  }

  ghost predicate Shaped(s: Sys) {
    TypedWire(s) && WatchdogAwaits(s) && TasksAwait(s) && SamplerAwaits(s)
  }

  lemma NewTaskHasNoWrite(s: Sys)
    requires TypedWire(s)
    ensures forall id :: id >= s.driver.nextTask ==> Pending(s.wire, ByTask(id)) == 0
  {
    forall id | id >= s.driver.nextTask ensures Pending(s.wire, ByTask(id)) == 0 {
      PendingNone(s.wire, ByTask(id));
    }
  }

  lemma WakeKeepsShape(s: Sys)
    requires Shaped(s)
    ensures Shaped(DoWake(s))
  {
    PendingIssue(s.wire, CoilWrite(InhibitRelay, false, ByWatchdog));
    NoneInWire(s.wire, ByWatchdog);
  }

  lemma CycleBeginKeepsShape(s: Sys)
    requires Shaped(s)
    ensures Shaped(DoCycleBegin(s))
  {
    PendingIssue(s.wire, CoilWrite(RESET_ORDER[0], false, BySampler));
    NoneInWire(s.wire, BySampler);
  }

  lemma StepKeepsShape(s: Sys, e: Event)
    requires Shaped(s)
    ensures Shaped(Step(s, e))
  {
    match e
    case Start => StartKeepsShape(s);
    case Answer(how) => if s.wire != [] { AnswerKeepsShape(s, how); }
    case Wake => WakeKeepsShape(s);
    case Fire(id) => FireKeepsShape(s, id);
    case CycleBegin => CycleBeginKeepsShape(s);
    case _ =>
  }

  lemma {:induction false} NoneInWire(wire: seq<CoilWrite>, o: Owner)
    ensures Pending(wire, o) == 0 ==> forall w :: w in wire ==> w.owner != o
  {
    if wire != [] {
      NoneInWire(wire[1..], o);
    }
  }

  /** Issuing a command write keeps the shape: no task but its own awaits it. */
  lemma IssueKeepsShape(s: Sys, w: CoilWrite)
    requires Shaped(s) && TypedWrite(s.driver, w) && (w.owner.ByDispatch? || w.owner.ByPulse?)
    ensures Shaped(Issue(s, w.relay, w.value, w.owner))
  {
    PendingIssue(s.wire, w);
  }

  lemma FaultKeepsShape(s: Sys, on: bool)
    requires Shaped(s)
    ensures Shaped(OutputFault(s, on))
  {
  }

  lemma DequeueKeepsShape(s: Sys)
    requires Shaped(s) && s.queue != []
    ensures Shaped(s.(queue := s.queue[1..]))
  {
  }

  lemma StartKeepsShape(s: Sys)
    requires Shaped(s)
    ensures Shaped(DoStart(s))
  {
    if s.queue != [] {
      var s1 := s.(queue := s.queue[1..]);
      DequeueKeepsShape(s);
      FaultKeepsShape(s1, true);
      FaultKeepsShape(s1, false);
      match s.queue[0]
      case SetInhibit(on) => IssueKeepsShape(s1, CoilWrite(InhibitRelay, on, ByDispatch));
      case SetForce(on) => IssueKeepsShape(s1, CoilWrite(ForceRelay, on, ByDispatch));
      case PulseTest(ms) => IssueKeepsShape(s1, CoilWrite(TestRelay, true, ByPulse(ms)));
      case PulseBypass(ms) => IssueKeepsShape(s1, CoilWrite(BypassRelay, true, ByPulse(ms)));
    }
  }

  /** A release task that issues its OFF write then awaits it. */
  lemma OffWriteKeepsShape(s: Sys, id: nat)
    requires Shaped(s) && id in s.driver.tasks && !s.driver.tasks[id].pc.Writing?
    ensures Shaped(IssueOff(s, id, s.driver.tasks[id]))
  {
    var relay := s.driver.tasks[id].relay;
    PendingIssue(s.wire, CoilWrite(relay, false, ByTask(id)));
    var after := IssueOff(s, id, s.driver.tasks[id]);
    assert forall w :: w in after.wire ==> w in s.wire || w == CoilWrite(relay, false, ByTask(id));
    assert TypedWire(after);
  }

  lemma RecordKeepsShape(s: Sys, relay: Relay, value: bool)
    requires Shaped(s)
    ensures Shaped(Record(s, relay, value))
  {
  }

  lemma FireKeepsShape(s: Sys, id: nat)
    requires Shaped(s)
    ensures Shaped(DoFire(s, id))
  {
    if id in s.driver.tasks && !s.driver.tasks[id].pc.Writing? {
      OffWriteKeepsShape(s, id);
      var recorded := Record(s, s.driver.tasks[id].relay, false);
      RecordKeepsShape(s, s.driver.tasks[id].relay, false);
      OffWriteKeepsShape(recorded, id);
    }
  }

  /** A pulse whose ON write landed spawns a release task that awaits nothing yet. */
  lemma SpawnKeepsShape(s: Sys, relay: Relay, ms: int)
    requires Shaped(s) && !Maintained(relay)
    ensures Shaped(SpawnRelease(s, relay, ms))
  {
    NewTaskHasNoWrite(s);
    var after, d := SpawnRelease(s, relay, ms), s.driver;
    forall id | id in after.driver.tasks
      ensures id < after.driver.nextTask && !Maintained(after.driver.tasks[id].relay)
      ensures Pending(s.wire, ByTask(id)) == (if after.driver.tasks[id].pc.Writing? then 1 else 0)
    {
      assert id in d.tasks || id == d.nextTask;
    }
    assert forall w :: w in s.wire ==> TypedWrite(d, w);
  }

  /** The facts about popping the oldest write. */
  lemma PopFacts(wire: seq<CoilWrite>)
    requires wire != []
    ensures forall x :: x in wire <==> x == wire[0] || x in wire[1..]
    ensures forall o :: Pending(wire, o) == Pending(wire[1..], o) + (if wire[0].owner == o then 1 else 0)
    ensures Pending(wire, wire[0].owner) <= 1 ==> forall x :: x in wire[1..] ==> x.owner != wire[0].owner
  {
    NoneInWire(wire[1..], wire[0].owner);
  }

  lemma PopKeepsTypes(s: Sys, how: Answered)
    requires TypedWire(s) && s.wire != []
    ensures TypedWire(Popped(s, how)) && TypedWrite(s.driver, s.wire[0])
  {
    PopFacts(s.wire);
  }

  /** No task awaits a command's own write. */
  lemma PopCommandKeepsShape(s: Sys, how: Answered)
    requires Shaped(s) && s.wire != [] && (s.wire[0].owner.ByDispatch? || s.wire[0].owner.ByPulse?)
    ensures Shaped(Popped(s, how))
  {
    PopKeepsTypes(s, how);
    PopFacts(s.wire);
  }

  lemma CommandAnswerKeepsShape(s: Sys, how: Answered)
    requires Shaped(s) && s.wire != [] && (s.wire[0].owner.ByDispatch? || s.wire[0].owner.ByPulse?)
    ensures Shaped(DoAnswer(s, how))
  {
    var w, popped := s.wire[0], Popped(s, how);
    PopCommandKeepsShape(s, how);
    PopKeepsTypes(s, how);
    if how != Landed {
      FaultKeepsShape(popped, true);
    } else if w.owner.ByDispatch? {
      RecordKeepsShape(popped, w.relay, w.value);
      FaultKeepsShape(Record(popped, w.relay, w.value), false);
    } else {
      RecordKeepsShape(popped, w.relay, true);
      SpawnKeepsShape(Record(popped, w.relay, true), w.relay, w.owner.ms);
      FaultKeepsShape(SpawnRelease(Record(popped, w.relay, true), w.relay, w.owner.ms), false);
    }
  }

  /** Every task but the watchdog awaits its write, and the watchdog has none outstanding. */
  ghost predicate WatchdogIdle(s: Sys) {
    && TypedWire(s) && TasksAwait(s) && SamplerAwaits(s)
    && Pending(s.wire, ByWatchdog) == 0 && forall w :: w in s.wire ==> w.owner != ByWatchdog
  }

  lemma PopReleaseIsIdle(s: Sys, how: Answered)
    requires Shaped(s) && s.wire != [] && s.wire[0].owner.ByWatchdog?
    ensures WatchdogIdle(Popped(s, how))
  {
    PopKeepsTypes(s, how);
    PopFacts(s.wire);
  }

  lemma IdleMaySleep(s: Sys, comms: Comms, commanded: Commanded)
    requires WatchdogIdle(s)
    ensures Shaped(s.(comms := comms, watchdog := Sleeping(s.now), driver := s.driver.(commanded := commanded)))
  {
  }

  lemma IdleMayRelease(s: Sys, issued: int)
    requires WatchdogIdle(s)
    ensures Shaped(Issue(s, ForceRelay, false, ByWatchdog).(watchdog := ReleasingForce(issued)))
  {
    var w := CoilWrite(ForceRelay, false, ByWatchdog);
    PendingIssue(s.wire, w);
    assert forall x :: x in s.wire + [w] <==> x in s.wire || x == w;
  }

  lemma WatchdogAnswerKeepsShape(s: Sys, how: Answered)
    requires Shaped(s) && s.wire != [] && s.wire[0].owner.ByWatchdog?
    ensures Shaped(DoAnswer(s, how))
  {
    var popped := Popped(s, how);
    PopReleaseIsIdle(s, how);
    assert s.wire[0] in s.wire;
    NoneInWire(s.wire, ByWatchdog);
    assert !s.watchdog.Sleeping?;
    if how == Landed && s.watchdog.ReleasingInhibit? {
      var recorded := Record(popped, InhibitRelay, false);
      assert WatchdogIdle(recorded);
      IdleMayRelease(recorded, s.watchdog.issued);
    } else {
      var after := DoAnswer(s, how);
      IdleMaySleep(popped, after.comms, after.driver.commanded);
    }
  }

  function WithoutTask(s: Sys, id: nat): Sys {
    s.(driver := s.driver.(tasks := s.driver.tasks - {id}))
  }

  /** With its write off the wire, the shape holds but for the task, which awaits nothing. */
  lemma PopTaskIsIdle(s: Sys, how: Answered, id: nat)
    requires Shaped(s) && s.wire != [] && s.wire[0].owner == ByTask(id)
    ensures Shaped(WithoutTask(Popped(s, how), id)) && TypedWire(Popped(s, how))
    ensures id in s.driver.tasks ==> Pending(s.wire[1..], ByTask(id)) == 0
  {
    PopKeepsTypes(s, how);
    PopFacts(s.wire);
  }

  lemma IdleTaskMayRetry(s: Sys, id: nat, t: PulseTask)
    requires Shaped(WithoutTask(s, id)) && TypedWire(s) && id in s.driver.tasks && id < s.driver.nextTask
    requires Pending(s.wire, ByTask(id)) == 0 && !Maintained(t.relay)
    requires t.pc.RetryAt? && t.relay == s.driver.tasks[id].relay
    ensures Shaped(WithTask(s, id, t))
  {
    var after := WithTask(s, id, t);
    assert forall i :: i in after.driver.tasks && i != id ==>
      i in WithoutTask(s, id).driver.tasks && after.driver.tasks[i] == s.driver.tasks[i];
  }

  function Retrying(s: Sys, t: PulseTask): PulseTask {
    t.(pc := RetryAt(s.now + PULSE_RELEASE_RETRY_MS), failed := t.failed + 1)
  }

  /** A task ends, or waits to retry; a cancelled one does not resume. */
  lemma TaskAnswerIs(s: Sys, how: Answered, id: nat)
    requires s.wire != [] && s.wire[0].owner == ByTask(id)
    ensures id in s.driver.tasks && how != Landed ==>
      DoAnswer(s, how) == WithTask(Popped(s, how), id, Retrying(s, s.driver.tasks[id]))
    ensures id !in s.driver.tasks || how == Landed ==> DoAnswer(s, how) == WithoutTask(Popped(s, how), id)
  {
    if id !in s.driver.tasks {
      assert s.driver.tasks - {id} == s.driver.tasks;
    }
  }

  /** Any other answer leaves the tasks alone, but for the one a pulse whose ON write landed spawns. */
  lemma OtherAnswerTasks(s: Sys, how: Answered)
    requires s.wire != [] && !s.wire[0].owner.ByTask?
    ensures var w, d, after := s.wire[0], s.driver, DoAnswer(s, how).driver;
      if w.owner.ByPulse? && how == Landed then
        && after.tasks == d.tasks[d.nextTask := PulseTask(w.relay, Window(s.now + Clamp(w.owner.ms)), s.now, 0)]
        && after.nextTask == d.nextTask + 1
      else after.tasks == d.tasks && after.nextTask == d.nextTask
    ensures DoAnswer(s, how).now == s.now
  {
    if !s.wire[0].owner.ByPulse? {
      QuietAnswerTasks(s, how);
    }
  }

  lemma QuietAnswerTasks(s: Sys, how: Answered)
    requires s.wire != [] && !s.wire[0].owner.ByTask? && !s.wire[0].owner.ByPulse?
    ensures var d, after := s.driver, DoAnswer(s, how).driver;
      after.tasks == d.tasks && after.nextTask == d.nextTask
    ensures DoAnswer(s, how).now == s.now
  {
    match s.wire[0].owner
    case ByDispatch =>
    case ByWatchdog =>
    case BySampler =>
  }

  lemma TaskAnswerKeepsShape(s: Sys, how: Answered)
    requires Shaped(s) && s.wire != [] && s.wire[0].owner.ByTask?
    ensures Shaped(DoAnswer(s, how))
  {
    var id := s.wire[0].owner.id;
    TaskAnswerIs(s, how, id);
    PopTaskIsIdle(s, how, id);
    if id in s.driver.tasks && how != Landed {
      IdleTaskMayRetry(Popped(s, how), id, Retrying(s, s.driver.tasks[id]));
    }
  }

  /** Every task but the sampling loop awaits its write, and the reset has none outstanding. */
  ghost predicate SamplerIdle(s: Sys) {
    && TypedWire(s) && WatchdogAwaits(s) && TasksAwait(s)
    && Pending(s.wire, BySampler) == 0 && (forall w :: w in s.wire ==> w.owner != BySampler)
    && (!s.outputsReset ==> s.publishes == 0)
  }

  lemma PopResetIsIdle(s: Sys, how: Answered)
    requires Shaped(s) && s.wire != [] && s.wire[0].owner.BySampler?
    ensures SamplerIdle(Popped(s, how))
    ensures s.sampler.Resetting? && s.wire[0].relay == RESET_ORDER[s.sampler.k]
  {
    PopKeepsTypes(s, how);
    PopFacts(s.wire);
    assert s.wire[0] in s.wire;
  }

  lemma IdleMayReset(s: Sys, k: nat)
    requires SamplerIdle(s) && k < |RESET_ORDER| && !s.outputsReset
    ensures Shaped(Issue(s, RESET_ORDER[k], false, BySampler).(sampler := Resetting(k)))
  {
    var w := CoilWrite(RESET_ORDER[k], false, BySampler);
    PendingIssue(s.wire, w);
    assert forall x :: x in s.wire + [w] <==> x in s.wire || x == w;
  }

  lemma IdleMayPause(s: Sys, store: Store)
    requires SamplerIdle(s)
    ensures Shaped(s.(store := store, sampler := Paused))
    ensures Shaped(s.(outputsReset := true, sampler := Reading))
  {
  }

  lemma ResetAnswerKeepsShape(s: Sys, how: Answered)
    requires Shaped(s) && s.wire != [] && s.wire[0].owner.BySampler?
    ensures Shaped(DoAnswer(s, how))
  {
    var popped := Popped(s, how);
    PopResetIsIdle(s, how);
    var k := s.sampler.k;
    var recorded := Record(popped, RESET_ORDER[k], false);
    assert SamplerIdle(recorded);
    if how != Landed {
      IdleMayPause(popped, SetInputFault(s.store, true));
    } else if k + 1 < |RESET_ORDER| {
      IdleMayReset(recorded, k + 1);
    } else {
      IdleMayPause(recorded, recorded.store);
    }
  }

  lemma AnswerKeepsShape(s: Sys, how: Answered)
    requires Shaped(s) && s.wire != []
    ensures Shaped(DoAnswer(s, how))
  {
    match s.wire[0].owner
    case ByWatchdog => WatchdogAnswerKeepsShape(s, how);
    case ByTask(_) => TaskAnswerKeepsShape(s, how);
    case BySampler => ResetAnswerKeepsShape(s, how);
    case _ => CommandAnswerKeepsShape(s, how);
  }

  lemma {:induction false} RunKeepsShape(s: Sys, es: seq<Event>)
    requires Shaped(s)
    ensures Shaped(Run(s, es))
    decreases |es|
  {
    if es != [] {
      StepKeepsShape(s, es[0]);
      RunKeepsShape(Step(s, es[0]), es[1..]);
    }
  }

  /** The start-up reset is done once. */
  lemma StaysReset(s: Sys, e: Event)
    requires s.outputsReset
    ensures Step(s, e).outputsReset
  {
    match e
    case Answer(how) => if s.wire != [] { AnswerStaysReset(s, how); }
    case _ =>
  }

  lemma AnswerStaysReset(s: Sys, how: Answered)
    requires s.outputsReset && s.wire != []
    ensures DoAnswer(s, how).outputsReset
  {
  }
}
