/** The comms-loss guarantee: a latched release means the maintained relays are off, and stay off. */
module ReleaseSafety {
  import opened Domain
  import opened Registers
  import opened CommsLoss
  import opened AdamOutputs
  import opened ModbusServer
  import opened ControlSystem
  import opened SystemShape

  predicate AssertsMaintained(i: CommandIntent) {
    i == SetInhibit(true) || i == SetForce(true)
  }

  predicate AssertWrite(w: CoilWrite) {
    w.value && Maintained(w.relay)
  }

  predicate QuietQueue(queue: seq<CommandIntent>) {
    forall i :: i in queue ==> !AssertsMaintained(i)
  }

  predicate QuietWire(wire: seq<CoilWrite>) {
    forall w :: w in wire ==> !AssertWrite(w)
  }

  /** While the watchdog considers the commands released, both maintained relays are off and
      nothing outstanding can turn them on. */
  predicate Safe(s: Sys) {
    s.comms.wd.released ==>
      InhibitRelay !in s.on && ForceRelay !in s.on && QuietQueue(s.queue) && QuietWire(s.wire)
  }

  /** The step that latches `_released`: the second release write lands. */
  predicate Latches(s: Sys, e: Event) {
    e == Answer(Landed) && s.wire != [] && s.wire[0].owner == ByWatchdog && s.watchdog.ReleasingForce?
  }

  /** What the code would have to see just before latching. */
  predicate CleanBeforeLatch(s: Sys) {
    QuietQueue(s.queue) && QuietWire(s.wire) && InhibitRelay !in s.on
  }

  predicate CleanLatch(s: Sys, e: Event) {
    Latches(s, e) ==> CleanBeforeLatch(s)
  }

  /** One step breaks the guarantee exactly by latching while an assertion is outstanding. */
  lemma StepSafeExactly(s: Sys, e: Event)
    requires Shaped(s) && Safe(s)
    ensures Safe(Step(s, e)) <==> CleanLatch(s, e)
  {
    match e
    case Arrive(conn, request) => ArriveIsSafe(s, conn, request);
    case Start => StartIsSafe(s);
    case Answer(how) => if s.wire != [] { AnswerSafeExactly(s, how); }
    case _ =>
  }

  lemma ArriveIsSafe(s: Sys, conn: Conn, r: Request)
    requires Safe(s)
    ensures Safe(DoArrive(s, conn, r))
  {
  }

  lemma StartIsSafe(s: Sys)
    requires Safe(s)
    ensures Safe(DoStart(s))
  {
    if s.queue != [] && s.comms.wd.released {
      assert forall i :: i in s.queue <==> i == s.queue[0] || i in s.queue[1..];
      assert !AssertsMaintained(s.queue[0]);
      var after := DoStart(s);
      assert forall w :: w in after.wire ==> w in s.wire || !AssertWrite(w);
    }
  }

  lemma LatchSafeExactly(s: Sys)
    requires Shaped(s) && Safe(s) && Latches(s, Answer(Landed))
    ensures Safe(DoAnswer(s, Landed)) <==> CleanBeforeLatch(s)
  {
    PopFacts(s.wire);
    var w, after := s.wire[0], DoAnswer(s, Landed);
    assert TypedWrite(s.driver, w);
    assert w.relay == ForceRelay && !w.value;
    assert after.on == s.on - {ForceRelay} && after.wire == s.wire[1..] && after.queue == s.queue;
    assert QuietWire(after.wire) <==> QuietWire(s.wire);
  }

  lemma PopIsSafe(s: Sys, how: Answered)
    requires Safe(s) && s.wire != []
    ensures Safe(Popped(s, how))
  {
    assert s.wire[0] in s.wire;
    assert forall w :: w in s.wire[1..] ==> w in s.wire;
  }

  lemma IssueOffIsSafe(s: Sys, after: Sys, w: CoilWrite)
    requires Safe(s) && !AssertWrite(w) && after.wire == s.wire + [w]
    requires after.comms == s.comms && after.queue == s.queue && after.on == s.on
    ensures Safe(after)
  {
  }

  lemma AnswerSafeExactly(s: Sys, how: Answered)
    requires Shaped(s) && Safe(s) && s.wire != []
    ensures Safe(DoAnswer(s, how)) <==> CleanLatch(s, Answer(how))
  {
    var popped, after := Popped(s, how), DoAnswer(s, how);
    PopIsSafe(s, how);
    if Latches(s, Answer(how)) {
      LatchSafeExactly(s);
    } else if s.wire[0].owner == ByWatchdog && how == Landed && s.watchdog.ReleasingInhibit? {
      IssueOffIsSafe(popped, after, CoilWrite(ForceRelay, false, ByWatchdog));
    } else if s.wire[0].owner == BySampler && how == Landed && s.sampler.Resetting? && s.sampler.k + 1 < |RESET_ORDER| {
      IssueOffIsSafe(popped, after, CoilWrite(RESET_ORDER[s.sampler.k + 1], false, BySampler));
    } else {
      assert after.wire == popped.wire && after.comms == s.comms && after.queue == s.queue && after.on == popped.on;
    }
  }

  /** The guarantee holds in every state of the run. */
  predicate AlwaysSafe(s: Sys, es: seq<Event>)
    decreases |es|
  {
    Safe(s) && (es != [] ==> AlwaysSafe(Step(s, es[0]), es[1..]))
  }

  /** Every latch of the run is clean. */
  predicate CleanLatches(s: Sys, es: seq<Event>)
    decreases |es|
  {
    es != [] ==> CleanLatch(s, es[0]) && CleanLatches(Step(s, es[0]), es[1..])
  }

  /** Exact: a run keeps the guarantee in every state if and only if every latch in it is clean. */
  lemma {:induction false} SafeExactly(s: Sys, es: seq<Event>)
    requires Shaped(s) && Safe(s)
    ensures AlwaysSafe(s, es) <==> CleanLatches(s, es)
    decreases |es|
  {
    if es != [] {
      StepSafeExactly(s, es[0]);
      StepKeepsShape(s, es[0]);
      if Safe(Step(s, es[0])) {
        SafeExactly(Step(s, es[0]), es[1..]);
      }
    }
  }

  // ─── A condition on the environment that makes every latch clean ──

  /** No maintained assertion is waiting to start when a release is issued, and no request that
      dispatches one arrives while the release is in flight. */
  predicate QuietStep(s: Sys, e: Event) {
    && (e.Wake? && Attempts(s) ==> QuietQueue(s.queue))
    && (e.Arrive? && !s.watchdog.Sleeping? ==> QuietQueue(Handle(s.store, e.request).intents))
  }

  predicate Quiet(s: Sys, es: seq<Event>)
    decreases |es|
  {
    es != [] ==> QuietStep(s, es[0]) && Quiet(Step(s, es[0]), es[1..])
  }

  /** What was issued after the watchdog's own write. */
  function Behind(wire: seq<CoilWrite>): seq<CoilWrite> {
    if wire == [] then [] else if wire[0].owner == ByWatchdog then wire[1..] else Behind(wire[1..])
  }

  /** The outstanding writes that land after the Inhibit relay has been released. */
  function Follow(s: Sys): seq<CoilWrite> {
    if s.watchdog.ReleasingInhibit? then Behind(s.wire) else s.wire
  }

  lemma {:induction false} BehindIssue(wire: seq<CoilWrite>, w: CoilWrite)
    ensures Behind(wire + [w]) == if Pending(wire, ByWatchdog) > 0 then Behind(wire) + [w] else []
  {
    if wire == [] {
      assert [w][1..] == [];
    } else {
      BehindIssue(wire[1..], w);
      assert (wire + [w])[1..] == wire[1..] + [w];
    }
  }

  lemma FollowIssue(s: Sys, w: CoilWrite)
    requires Shaped(s) && !s.watchdog.Sleeping?
    ensures Follow(Issue(s, w.relay, w.value, w.owner)) == Follow(s) + [w]
  {
    BehindIssue(s.wire, w);
  }

  /** Nothing that lands after the release of the Inhibit relay asserts a maintained relay. */
  predicate ReleaseUndisturbed(s: Sys) {
    !s.watchdog.Sleeping? ==>
      QuietQueue(s.queue) && QuietWire(Follow(s)) && (s.watchdog.ReleasingForce? ==> InhibitRelay !in s.on)
  }

  lemma IssueUndisturbed(s: Sys, w: CoilWrite)
    requires Shaped(s) && ReleaseUndisturbed(s) && !AssertWrite(w)
    ensures ReleaseUndisturbed(Issue(s, w.relay, w.value, w.owner))
  {
    if !s.watchdog.Sleeping? {
      FollowIssue(s, w);
    }
  }

  lemma StepUndisturbed(s: Sys, e: Event)
    requires Shaped(s) && ReleaseUndisturbed(s) && QuietStep(s, e)
    ensures ReleaseUndisturbed(Step(s, e))
  {
    match e
    case Start => StartUndisturbed(s);
    case Answer(how) => if s.wire != [] { AnswerUndisturbed(s, how); }
    case Wake => BehindIssue(s.wire, CoilWrite(InhibitRelay, false, ByWatchdog));
    case Fire(id) => FireUndisturbed(s, id);
    case CycleBegin => CycleBeginUndisturbed(s);
    case _ =>
  }

  lemma FireUndisturbed(s: Sys, id: nat)
    requires Shaped(s) && ReleaseUndisturbed(s)
    ensures ReleaseUndisturbed(DoFire(s, id))
  {
    if id in s.driver.tasks && !s.watchdog.Sleeping? {
      BehindIssue(s.wire, CoilWrite(s.driver.tasks[id].relay, false, ByTask(id)));
    }
  }

  lemma CycleBeginUndisturbed(s: Sys)
    requires Shaped(s) && ReleaseUndisturbed(s)
    ensures ReleaseUndisturbed(DoCycleBegin(s))
  {
    BehindIssue(s.wire, CoilWrite(RESET_ORDER[0], false, BySampler));
  }

  lemma StartUndisturbed(s: Sys)
    requires Shaped(s) && ReleaseUndisturbed(s)
    ensures ReleaseUndisturbed(DoStart(s))
  {
    if s.queue != [] && !s.watchdog.Sleeping? {
      assert forall i :: i in s.queue <==> i == s.queue[0] || i in s.queue[1..];
      assert !AssertsMaintained(s.queue[0]);
      var s1 := s.(queue := s.queue[1..]);
      DequeueKeepsShape(s);
      match s.queue[0]
      case SetInhibit(on) => IssueUndisturbed(s1, CoilWrite(InhibitRelay, on, ByDispatch));
      case SetForce(on) => IssueUndisturbed(s1, CoilWrite(ForceRelay, on, ByDispatch));
      case PulseTest(ms) => IssueUndisturbed(s1, CoilWrite(TestRelay, true, ByPulse(ms)));
      case PulseBypass(ms) => IssueUndisturbed(s1, CoilWrite(BypassRelay, true, ByPulse(ms)));
    }
  }

  /** An answer to another task's write leaves the release where it was. */
  lemma OtherAnswerUndisturbed(s: Sys, how: Answered)
    requires Shaped(s) && ReleaseUndisturbed(s) && s.wire != [] && s.wire[0].owner != ByWatchdog
    ensures ReleaseUndisturbed(Popped(s, how))
  {
    PopFacts(s.wire);
    if s.watchdog.ReleasingForce? {
      assert s.wire[0] in Follow(s) && !AssertWrite(s.wire[0]);
    }
  }

  lemma AnswerUndisturbed(s: Sys, how: Answered)
    requires Shaped(s) && ReleaseUndisturbed(s) && s.wire != []
    ensures ReleaseUndisturbed(DoAnswer(s, how))
  {
    if s.wire[0].owner == ByWatchdog {
      ReleaseAnswerUndisturbed(s, how);
    } else if !s.watchdog.Sleeping? {
      OtherAnswerUndisturbed(s, how);
      if s.wire[0].owner.BySampler? {
        ResetAnswerUndisturbed(s, how);
      } else {
        AnswerIssuesNothing(s, how);
      }
    }
  }

  lemma AnswerIssuesNothing(s: Sys, how: Answered)
    requires s.wire != [] && s.wire[0].owner != ByWatchdog && s.wire[0].owner != BySampler
    ensures var after, popped := DoAnswer(s, how), Popped(s, how);
      && after.wire == popped.wire && after.queue == popped.queue && after.on == popped.on
      && after.watchdog == popped.watchdog && after.outputsReset == s.outputsReset && after.driver.hwOk == s.driver.hwOk
  {
  }

  lemma ReleaseAnswerUndisturbed(s: Sys, how: Answered)
    requires Shaped(s) && ReleaseUndisturbed(s) && s.wire != [] && s.wire[0].owner == ByWatchdog
    ensures ReleaseUndisturbed(DoAnswer(s, how))
  {
    PopFacts(s.wire);
    assert s.wire[0] in s.wire && TypedWrite(s.driver, s.wire[0]);
  }

  lemma ResetAnswerUndisturbed(s: Sys, how: Answered)
    requires Shaped(s) && s.wire != [] && s.wire[0].owner == BySampler && ReleaseUndisturbed(Popped(s, how))
    requires !s.watchdog.Sleeping?
    ensures ReleaseUndisturbed(DoAnswer(s, how))
  {
    PopFacts(s.wire);
    assert s.wire[0] in s.wire && s.sampler.Resetting?;
    if s.sampler.k + 1 < |RESET_ORDER| {
      BehindIssue(s.wire[1..], CoilWrite(RESET_ORDER[s.sampler.k + 1], false, BySampler));
    }
  }

  lemma {:induction false} QuietRunsLatchCleanly(s: Sys, es: seq<Event>)
    requires Shaped(s) && ReleaseUndisturbed(s) && Quiet(s, es)
    ensures CleanLatches(s, es) && ReleaseUndisturbed(Run(s, es))
    decreases |es|
  {
    if es != [] {
      StepUndisturbed(s, es[0]);
      StepKeepsShape(s, es[0]);
      QuietRunsLatchCleanly(Step(s, es[0]), es[1..]);
    }
  }

  lemma {:induction false} SafeAtEnd(s: Sys, es: seq<Event>)
    requires AlwaysSafe(s, es)
    ensures Safe(Run(s, es))
    decreases |es|
  {
    if es != [] {
      SafeAtEnd(Step(s, es[0]), es[1..]);
    }
  }

  /** From any boot, in every quiet run: released means both maintained relays are off with nothing
      outstanding to turn them on; so an energised one always has an armed watchdog. */
  lemma ReleasedMeansOff(on: set<Relay>, persisted: Persisted, wall: int, hwOk: bool, now: int, es: seq<Event>)
    requires Quiet(Boot(on, persisted, wall, hwOk, now), es)
    ensures var s := Run(Boot(on, persisted, wall, hwOk, now), es);
      && Safe(s)
      && (InhibitRelay in s.on || ForceRelay in s.on ==> !s.comms.wd.released)
  {
    var s0 := Boot(on, persisted, wall, hwOk, now);
    QuietRunsLatchCleanly(s0, es);
    SafeExactly(s0, es);
    SafeAtEnd(s0, es);
  }

  // ─── Why the condition is needed ──────────────────────────────────

  /** Released, idle, and an Inhibit relay on with nothing outstanding to turn it off. */
  predicate Stranded(s: Sys) {
    && s.comms.wd.released && s.watchdog.Sleeping? && s.outputsReset && s.queue == []
    && InhibitRelay in s.on && forall w :: w in s.wire ==> w.relay != InhibitRelay
  }

  lemma AnswerStaysStranded(s: Sys, how: Answered)
    requires Shaped(s) && Stranded(s) && s.wire != []
    ensures Stranded(DoAnswer(s, how))
  {
  }

  lemma StepStaysStranded(s: Sys, e: Event)
    requires Shaped(s) && Stranded(s) && !e.Arrive?
    ensures Stranded(Step(s, e))
  {
    match e
    case Answer(how) => if s.wire != [] { AnswerStaysStranded(s, how); }
    case Fire(id) =>
      var after := DoFire(s, id);
      assert after.comms == s.comms && after.on == s.on && after.watchdog == s.watchdog;
    case _ =>
  }

  /** Once stranded, nothing but a new request can ever turn the relay off. */
  lemma {:induction false} StrandedUntilRequest(s: Sys, es: seq<Event>)
    requires Shaped(s) && Stranded(s)
    requires forall e :: e in es ==> !e.Arrive?
    ensures Stranded(Run(s, es))
    decreases |es|
  {
    if es != [] {
      StepKeepsShape(s, es[0]);
      StepStaysStranded(s, es[0]);
      StrandedUntilRequest(Step(s, es[0]), es[1..]);
    }
  }

  function AutoMode(): InputSnapshot {
    InputSnapshot(Utility, true, true, false, Auto, {})
  }

  const ASSERT_INHIBIT := WriteSingle(ADDR_CMD_INHIBIT, 1)

  /** The watchdog issues its release; before it completes a new connection asserts Inhibit. */
  const RACE: seq<Event> :=
    [Wake, Arrive(2, ASSERT_INHIBIT), Answer(Landed), Answer(Landed), Start, Answer(Landed)]

  /** Idle in auto mode, and about to release. */
  predicate Exposed(s: Sys) {
    Attempts(s) && s.wire == [] && s.queue == [] && s.store.snap.atsMode == Auto && s.driver.hwOk && s.outputsReset
  }

  lemma AssertInhibitQueues(s: Sys, conn: Conn)
    requires s.store.snap.atsMode == Auto && s.queue == []
    ensures Step(s, Arrive(conn, ASSERT_INHIBIT)).queue == [SetInhibit(true)]
  {
    assert WrittenValues(ASSERT_INHIBIT)[1..] == [];
    assert ProbeAll(s.store, ADDR_CMD_INHIBIT, 1) == (s.store, true);
    assert WriteAll(s.store, ADDR_CMD_INHIBIT, [1]).1 == [SetInhibit(true)];
  }

  /** Both release writes land with nothing else outstanding. */
  lemma ReleaseLands(s: Sys)
    requires s.wire == [CoilWrite(InhibitRelay, false, ByWatchdog)] && s.watchdog.ReleasingInhibit?
    ensures var after := Run(s, [Answer(Landed), Answer(Landed)]);
      && after.wire == [] && after.queue == s.queue && after.watchdog.Sleeping? && after.comms.wd.released
      && after.driver.hwOk == s.driver.hwOk && after.outputsReset == s.outputsReset
  {
    RunOfTwo(s, Answer(Landed), Answer(Landed));
    var s1 := Step(s, Answer(Landed));
    assert s1.wire == [CoilWrite(ForceRelay, false, ByWatchdog)];
  }

  lemma AssertionLands(s: Sys)
    requires s.wire == [] && s.queue == [SetInhibit(true)] && s.driver.hwOk
    requires s.watchdog.Sleeping? && s.comms.wd.released && s.outputsReset
    ensures Stranded(Run(s, [Start, Answer(Landed)]))
  {
    RunOfTwo(s, Start, Answer(Landed));
    assert Step(s, Start).wire == [CoilWrite(InhibitRelay, true, ByDispatch)];
  }

  /** The release lands with the assertion still queued. */
  lemma RaceReleases(s: Sys)
    requires Exposed(s)
    ensures var after := Run(s, RACE[..4]);
      && after.wire == [] && after.queue == [SetInhibit(true)] && after.driver.hwOk
      && after.watchdog.Sleeping? && after.comms.wd.released && after.outputsReset
  {
    var s1 := Step(s, Wake);
    AssertInhibitQueues(s1, 2);
    RunOfTwo(s, Wake, Arrive(2, ASSERT_INHIBIT));
    var s2 := Step(s1, Arrive(2, ASSERT_INHIBIT));
    assert s2.wire == [CoilWrite(InhibitRelay, false, ByWatchdog)] && s2.watchdog == ReleasingInhibit(s.now);
    ReleaseLands(s2);
    RunAppend(s, [Wake, Arrive(2, ASSERT_INHIBIT)], [Answer(Landed), Answer(Landed)]);
    assert RACE[..4] == [Wake, Arrive(2, ASSERT_INHIBIT)] + [Answer(Landed), Answer(Landed)];
  }

  /** From every such state a request that lands in the window re-arms the watchdog, the latch
      overwrites the re-arm, and the relay it asserts is stranded. */
  lemma RaceStrandsRelay(s: Sys)
    requires Exposed(s)
    ensures Stranded(Run(s, RACE))
  {
    RaceReleases(s);
    AssertionLands(Run(s, RACE[..4]));
    RunAppend(s, RACE[..4], [Start, Answer(Landed)]);
    assert RACE == RACE[..4] + [Start, Answer(Landed)];
  }

  /** A request asserts Inhibit, its connection drops, and the watchdog releases before the queued
      command task has started. No request arrives while the release is in flight. */
  const DROP_RACE: seq<Event> :=
    [Arrive(1, ASSERT_INHIBIT), Disconnect(1), Wake, Start, Answer(Landed), Answer(Landed), Answer(Landed)]

  /** Idle in auto mode, with a wake-up due. */
  predicate Idle(s: Sys) {
    WakeDue(s) && s.wire == [] && s.queue == [] && s.store.snap.atsMode == Auto && s.driver.hwOk && s.outputsReset
  }

  lemma DropReleases(s: Sys)
    requires Idle(s)
    ensures var after := Run(s, DROP_RACE[..3]);
      && after.watchdog.ReleasingInhibit? && after.queue == [SetInhibit(true)]
      && after.wire == [CoilWrite(InhibitRelay, false, ByWatchdog)]
      && after.driver.hwOk && after.outputsReset
  {
    AssertInhibitQueues(s, 1);
    RunOfTwo(s, Arrive(1, ASSERT_INHIBIT), Disconnect(1));
    var s2 := Step(Step(s, Arrive(1, ASSERT_INHIBIT)), Disconnect(1));
    assert s2.comms == Comms(Watchdog(s.now, false, true), None) && s2.queue == [SetInhibit(true)];
    assert Attempts(s2);
    RunAppend(s, [Arrive(1, ASSERT_INHIBIT), Disconnect(1)], [Wake]);
    assert DROP_RACE[..3] == [Arrive(1, ASSERT_INHIBIT), Disconnect(1)] + [Wake];
    assert [Wake][1..] == [] && Run(s2, [Wake]) == Step(s2, Wake);
  }

  lemma QueuedAssertionStarts(s: Sys)
    requires s.watchdog.ReleasingInhibit? && s.queue == [SetInhibit(true)]
    requires s.wire == [CoilWrite(InhibitRelay, false, ByWatchdog)] && s.driver.hwOk && s.outputsReset
    ensures var after := Run(s, [Start, Answer(Landed)]);
      && after.watchdog.ReleasingForce? && after.queue == [] && after.outputsReset
      && after.wire == [CoilWrite(InhibitRelay, true, ByDispatch), CoilWrite(ForceRelay, false, ByWatchdog)]
  {
    RunOfTwo(s, Start, Answer(Landed));
    var s1 := Step(s, Start);
    assert s1.wire == [CoilWrite(InhibitRelay, false, ByWatchdog), CoilWrite(InhibitRelay, true, ByDispatch)];
  }

  lemma LatchOverAssertion(s: Sys)
    requires s.watchdog.ReleasingForce? && s.queue == [] && s.outputsReset
    requires s.wire == [CoilWrite(InhibitRelay, true, ByDispatch), CoilWrite(ForceRelay, false, ByWatchdog)]
    ensures Stranded(Run(s, [Answer(Landed), Answer(Landed)]))
  {
    RunOfTwo(s, Answer(Landed), Answer(Landed));
    var s1 := Step(s, Answer(Landed));
    assert s1.wire == [CoilWrite(ForceRelay, false, ByWatchdog)];
  }

  /** So an assertion still queued when the release is issued strands its relay just the same. */
  lemma QueuedAssertionStrandsRelay(s: Sys)
    requires Idle(s)
    ensures Stranded(Run(s, DROP_RACE))
  {
    DropReleases(s);
    var s3 := Run(s, DROP_RACE[..3]);
    QueuedAssertionStarts(s3);
    var s5 := Run(s3, [Start, Answer(Landed)]);
    LatchOverAssertion(s5);
    RunAppend(s3, [Start, Answer(Landed)], [Answer(Landed), Answer(Landed)]);
    RunAppend(s, DROP_RACE[..3], [Start, Answer(Landed)] + [Answer(Landed), Answer(Landed)]);
    assert DROP_RACE == DROP_RACE[..3] + ([Start, Answer(Landed)] + [Answer(Landed), Answer(Landed)]);
  }

  // ─── Such states are reached in ordinary operation ────────────────

  function Landings(n: nat): seq<Event> {
    seq(n, i => Answer(Landed))
  }

  const RESET: seq<Event> := [CycleBegin] + Landings(|RESET_ORDER|)

  lemma ResetStep(s: Sys, k: nat)
    requires k < |RESET_ORDER| && s.sampler == Resetting(k) && s.wire == [CoilWrite(RESET_ORDER[k], false, BySampler)]
    ensures var after := Step(s, Answer(Landed));
      && after.on == s.on - {RESET_ORDER[k]}
      && after.queue == s.queue && after.comms == s.comms && after.watchdog == s.watchdog
      && after.now == s.now && after.driver.hwOk == s.driver.hwOk
      && if k + 1 < |RESET_ORDER| then
           after.sampler == Resetting(k + 1) && after.wire == [CoilWrite(RESET_ORDER[k + 1], false, BySampler)]
         else
           after.sampler == Reading && after.outputsReset && after.wire == []
  {
  }

  lemma {:induction false} ResetFrom(s: Sys, k: nat)
    requires k < |RESET_ORDER| && s.sampler == Resetting(k) && s.wire == [CoilWrite(RESET_ORDER[k], false, BySampler)]
    requires forall j :: 0 <= j < k ==> RESET_ORDER[j] !in s.on
    ensures var after := Run(s, Landings(|RESET_ORDER| - k));
      && after.sampler == Reading && after.outputsReset && after.wire == []
      && (forall j :: 0 <= j < |RESET_ORDER| ==> RESET_ORDER[j] !in after.on)
      && after.queue == s.queue && after.comms == s.comms && after.watchdog == s.watchdog
      && after.now == s.now && after.driver.hwOk == s.driver.hwOk
    decreases |RESET_ORDER| - k
  {
    ResetStep(s, k);
    var s1 := Step(s, Answer(Landed));
    assert Landings(|RESET_ORDER| - k)[1..] == Landings(|RESET_ORDER| - k - 1);
    if k + 1 < |RESET_ORDER| {
      ResetFrom(s1, k + 1);
    }
  }

  /** The reset writes OFF to Test, Force Transfer, Inhibit and Bypass, in this order, one at a time. */
  lemma ResetWritesInOrder(s: Sys, k: nat)
    requires s.sampler == Paused && !s.outputsReset && s.wire == [] && k < 4
    ensures var after := Run(s, [CycleBegin] + Landings(k));
      && after.sampler == Resetting(k)
      && after.wire == [CoilWrite([TestRelay, ForceRelay, InhibitRelay, BypassRelay][k], false, BySampler)]
    decreases k
  {
    if k == 0 {
      assert [CycleBegin] + Landings(0) == [CycleBegin] && [CycleBegin][1..] == [];
    } else {
      ResetWritesInOrder(s, k - 1);
      var before := Run(s, [CycleBegin] + Landings(k - 1));
      ResetStep(before, k - 1);
      RunAppend(s, [CycleBegin] + Landings(k - 1), [Answer(Landed)]);
      assert [CycleBegin] + Landings(k) == [CycleBegin] + Landings(k - 1) + [Answer(Landed)];
      assert [Answer(Landed)][1..] == [] && Run(before, [Answer(Landed)]) == Step(before, Answer(Landed));
    }
  }

  lemma AllReset(on: set<Relay>)
    requires forall j :: 0 <= j < |RESET_ORDER| ==> RESET_ORDER[j] !in on
    ensures on == {}
  {
    assert RESET_ORDER[0] !in on && RESET_ORDER[1] !in on && RESET_ORDER[2] !in on && RESET_ORDER[3] !in on;
    forall r | r in on ensures false {
      match r case TestRelay => case ForceRelay => case InhibitRelay => case BypassRelay =>
    }
  }

  /** An undisturbed start-up reset completes. */
  lemma ResetCompletes(s: Sys)
    requires s.sampler == Paused && !s.outputsReset && s.wire == []
    ensures var after := Run(s, RESET);
      && after.sampler == Reading && after.outputsReset && after.wire == [] && after.on == {}
      && after.queue == s.queue && after.comms == s.comms && after.watchdog == s.watchdog
      && after.now == s.now && after.driver.hwOk == s.driver.hwOk
  {
    var s1 := Step(s, CycleBegin);
    assert s1.wire == [CoilWrite(TestRelay, false, BySampler)];
    ResetFrom(s1, 0);
    assert RESET[0] == CycleBegin && RESET[1..] == Landings(|RESET_ORDER|);
    var after := Run(s1, Landings(|RESET_ORDER|));
    assert Run(s, RESET) == after;
    AllReset(after.on);
  }

  /** One sample in auto mode and some silence. */
  function SampleAndWait(wall: int, ms: nat): seq<Event> {
    [Publish(AutoMode(), {}, wall), Tick(ms)]
  }

  lemma WaitAfterReset(s: Sys, wall: int, ms: nat)
    requires s.sampler == Reading && s.outputsReset && s.wire == [] && s.queue == [] && s.driver.hwOk
    requires s.watchdog == Sleeping(s.now) && s.comms.wd == Watchdog(s.now, false, false)
    ensures var after := Run(s, SampleAndWait(wall, ms));
      (ms >= 1000 ==> Idle(after)) && (ms > 30000 ==> Exposed(after))
  {
    RunOfTwo(s, Publish(AutoMode(), {}, wall), Tick(ms));
    assert Step(s, Publish(AutoMode(), {}, wall)).store.snap.atsMode == Auto;
  }

  /** Both starting points are reached in ordinary operation: boot, reset, one sample, and a second or
      thirty of silence. */
  lemma SilenceExposes(on: set<Relay>, persisted: Persisted, wall: int, now: int, ms: nat)
    ensures var after := Run(Boot(on, persisted, wall, true, now), RESET + SampleAndWait(wall, ms));
      (ms >= 1000 ==> Idle(after)) && (ms > 30000 ==> Exposed(after))
  {
    var s0 := Boot(on, persisted, wall, true, now);
    RunAppend(s0, RESET, SampleAndWait(wall, ms));
    ResetCompletes(s0);
    WaitAfterReset(Run(s0, RESET), wall, ms);
  }
}
