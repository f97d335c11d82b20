/** The running controller as one step system: the server, the command tasks, the watchdog, the
    sampling loop and the pulse-release tasks interleave wherever the code awaits.

    Coil writes form one FIFO `wire`: the module takes them in issue order, and each is answered by
    landing or by failing. Taking effect and resuming the issuer are one step. */
module ControlSystem {
  import opened Domain
  import opened Registers
  import opened CommsLoss
  import opened AdamOutputs
  import opened ModbusServer

  /** The watchdog task: asleep since some instant, or awaiting one of its two release writes. */
  datatype WatchdogPc = Sleeping(since: int) | ReleasingInhibit(issued: int) | ReleasingForce(issued: int)

  /** A pulse-release task: waiting out the window, awaiting its OFF write, or waiting to retry. */
  datatype TaskPc = Window(until: int) | Writing(issued: int) | RetryAt(at: int)

  /** `born` is when the ON write landed, `failed` how many OFF writes have failed; both are history. */
  datatype PulseTask = PulseTask(relay: Relay, pc: TaskPc, born: int, failed: nat)

  datatype SamplerPc = Paused | Resetting(k: nat) | Reading

  datatype Owner = ByDispatch | ByPulse(ms: int) | ByWatchdog | ByTask(id: nat) | BySampler

  datatype CoilWrite = CoilWrite(relay: Relay, value: bool, owner: Owner)

  /** The driver object: fail-safe verified, last commands, live release tasks, task slots. */
  datatype Driver = Driver(
    hwOk: bool, commanded: Commanded, tasks: map<nat, PulseTask>, nextTask: nat, slots: map<Relay, nat>)

  /** `on` is the set of energised relays and `lit` when each relay was last switched on. `attempts`
      counts release attempts since the last re-arm, and `publishes` counts published samples. `lit`,
      `attempts` and `publishes` are history, no step depends on them. */
  datatype Sys = Sys(
    now: int, store: Store, comms: Comms, watchdog: WatchdogPc,
    queue: seq<CommandIntent>, wire: seq<CoilWrite>, driver: Driver,
    sampler: SamplerPc, outputsReset: bool, on: set<Relay>, lit: map<Relay, int>,
    attempts: nat, publishes: nat)

  datatype Answered = Landed | Lost | LostButActed

  datatype Event =
    | Tick(ms: nat)
    | Arrive(conn: Conn, request: Request)
    | Disconnect(conn: Conn)
    | Start
    | Answer(how: Answered)
    | Wake
    | Fire(id: nat)
    | CycleBegin
    | CycleFail
    | Publish(inputs: InputSnapshot, outputs: set<Relay>, wall: int)
    | HwCheck(ok: bool)

  const RESET_ORDER := [TestRelay, ForceRelay, InhibitRelay, BypassRelay]

  /** A fresh process over whatever relays a previous instance left energised. */
  function Boot(on: set<Relay>, persisted: Persisted, wall: int, hwOk: bool, now: int): Sys {
    var store := BootStore(persisted, wall);
    Sys(now, if hwOk then store else SetOutputFault(store, true), Comms(Watchdog(now, false, false), None),
        Sleeping(now), [], [], Driver(hwOk, map[], map[], 0, map[]), Paused, false, on, map[], 0, 0)
  }

  function Issue(s: Sys, relay: Relay, value: bool, owner: Owner): Sys {
    s.(wire := s.wire + [CoilWrite(relay, value, owner)])
  }

  function Record(s: Sys, relay: Relay, value: bool): Sys {
    s.(driver := s.driver.(commanded := s.driver.commanded[relay := Command(value, s.now)]))
  }

  function OutputFault(s: Sys, on: bool): Sys {
    s.(store := SetOutputFault(s.store, on))
  }

  // ─── Server ───────────────────────────────────────────────────────

  /** One request: the tracker sees it first, then it is executed without another await. */
  function DoArrive(s: Sys, conn: Conn, r: Request): Sys {
    var life := CountsAsLife(s.comms, conn, IsCommandWrite(r));
    var reply := Handle(s.store, r);
    s.(comms := AfterRequest(s.comms, conn, IsCommandWrite(r), s.now),
       attempts := if life then 0 else s.attempts,
       store := reply.store,
       queue := s.queue + reply.intents)
  }

  // ─── Command dispatch ─────────────────────────────────────────────

  /** A live release task holds this relay's slot. */
  predicate Pulsing(d: Driver, relay: Relay) {
    relay in d.slots && d.slots[relay] in d.tasks
  }

  /** A dispatch task runs up to its first coil write. */
  function DoStart(s: Sys): Sys {
    if s.queue == [] then s
    else
      var intent := s.queue[0];
      var s1 := s.(queue := s.queue[1..]);
      if !s.driver.hwOk && Asserts(intent) then OutputFault(s1, true)
      else
        match intent
        case SetInhibit(on) => Issue(s1, InhibitRelay, on, ByDispatch)
        case SetForce(on) => Issue(s1, ForceRelay, on, ByDispatch)
        case PulseTest(ms) => StartPulse(s1, TestRelay, ms)
        case PulseBypass(ms) => StartPulse(s1, BypassRelay, ms)
  }

  /** A re-trigger during a pulse is ignored and counts as a successful dispatch. */
  function StartPulse(s: Sys, relay: Relay, ms: int): Sys {
    if Pulsing(s.driver, relay) then OutputFault(s, false) else Issue(s, relay, true, ByPulse(ms))
  }

  function SpawnRelease(s: Sys, relay: Relay, ms: int): Sys {
    var d := s.driver;
    s.(driver := d.(
      tasks := d.tasks[d.nextTask := PulseTask(relay, Window(s.now + Clamp(ms)), s.now, 0)],
      slots := d.slots[relay := d.nextTask],
      nextTask := d.nextTask + 1))
  }

  // ─── Answers ──────────────────────────────────────────────────────

  function Effect(on: set<Relay>, w: CoilWrite, how: Answered): set<Relay> {
    if how == Lost then on else if w.value then on + {w.relay} else on - {w.relay}
  }

  /** The oldest write is answered, and its issuer has not resumed yet. */
  function Popped(s: Sys, how: Answered): Sys
    requires s.wire != []
  {
    var w := s.wire[0];
    var on := Effect(s.on, w, how);
    s.(wire := s.wire[1..], on := on, lit := if w.relay in on - s.on then s.lit[w.relay := s.now] else s.lit)
  }

  function DoAnswer(s: Sys, how: Answered): Sys {
    if s.wire == [] then s else Resume(Popped(s, how), s.wire[0], how == Landed)
  }

  /** The issuer of `w` continues. */
  function Resume(s: Sys, w: CoilWrite, ok: bool): Sys {
    match w.owner
    case ByDispatch =>
      if ok then OutputFault(Record(s, w.relay, w.value), false) else OutputFault(s, true)
    case ByPulse(ms) =>
      if ok then OutputFault(SpawnRelease(Record(s, w.relay, true), w.relay, ms), false) else OutputFault(s, true)
    case ByWatchdog => ResumeWatchdog(s, ok)
    case ByTask(id) => ResumeTask(s, id, ok)
    case BySampler => ResumeReset(s, ok)
  }

  function ResumeWatchdog(s: Sys, ok: bool): Sys {
    match s.watchdog
    case ReleasingInhibit(issued) =>
      if ok then
        Issue(Record(s, InhibitRelay, false), ForceRelay, false, ByWatchdog).(watchdog := ReleasingForce(issued))
      else s.(watchdog := Sleeping(s.now))
    case ReleasingForce(_) =>
      if ok then
        Record(s, ForceRelay, false).(
          comms := s.comms.(wd := s.comms.wd.(released := true)), watchdog := Sleeping(s.now))
      else s.(watchdog := Sleeping(s.now))
    case Sleeping(_) => s
  }

  /** A cancelled task is gone and does not resume. */
  function ResumeTask(s: Sys, id: nat, ok: bool): Sys {
    if id !in s.driver.tasks then s
    else if ok then s.(driver := s.driver.(tasks := s.driver.tasks - {id}))
    else
      var t := s.driver.tasks[id];
      WithTask(s, id, t.(pc := RetryAt(s.now + PULSE_RELEASE_RETRY_MS), failed := t.failed + 1))
  }

  function WithTask(s: Sys, id: nat, t: PulseTask): Sys {
    s.(driver := s.driver.(tasks := s.driver.tasks[id := t]))
  }

  function ResumeReset(s: Sys, ok: bool): Sys {
    if !s.sampler.Resetting? || s.sampler.k >= |RESET_ORDER| then s
    else if !ok then s.(store := SetInputFault(s.store, true), sampler := Paused)
    else
      var k := s.sampler.k;
      var s1 := Record(s, RESET_ORDER[k], false);
      if k + 1 < |RESET_ORDER| then Issue(s1, RESET_ORDER[k + 1], false, BySampler).(sampler := Resetting(k + 1))
      else s1.(outputsReset := true, sampler := Reading)
  }

  // ─── Watchdog, pulse tasks ────────────────────────────────────────

  predicate WakeDue(s: Sys) {
    s.watchdog.Sleeping? && s.now >= s.watchdog.since + CHECK_INTERVAL_MS
  }

  /** This wake-up issues a release. */
  predicate Attempts(s: Sys) {
    WakeDue(s) && ShouldRelease(s.comms.wd, s.now)
  }

  function DoWake(s: Sys): Sys {
    if !WakeDue(s) then s
    else if Attempts(s) then
      Issue(s, InhibitRelay, false, ByWatchdog).(
        store := ReleaseMaintained(s.store), watchdog := ReleasingInhibit(s.now), attempts := s.attempts + 1)
    else s.(watchdog := Sleeping(s.now))
  }

  /** When a window ends OFF is recorded before the first write; retries do not record again. */
  function DoFire(s: Sys, id: nat): Sys {
    if id !in s.driver.tasks then s
    else
      var t := s.driver.tasks[id];
      match t.pc
      case Window(until) =>
        if s.now >= until then IssueOff(Record(s, t.relay, false), id, t) else s
      case RetryAt(at) =>
        if s.now >= at then IssueOff(s, id, t) else s
      case Writing(_) => s
  }

  function IssueOff(s: Sys, id: nat, t: PulseTask): Sys {
    Issue(WithTask(s, id, t.(pc := Writing(s.now))), t.relay, false, ByTask(id))
  }

  // ─── Sampling loop ────────────────────────────────────────────────

  /** Release tasks still held in a slot are cancelled before a reset. */
  function CancelSlots(s: Sys): Sys {
    var d := s.driver;
    s.(driver := d.(tasks := map id | id in d.tasks && id !in d.slots.Values :: d.tasks[id]))
  }

  function DoCycleBegin(s: Sys): Sys {
    if !s.sampler.Paused? then s
    else if s.outputsReset then s.(sampler := Reading)
    else Issue(CancelSlots(s), RESET_ORDER[0], false, BySampler).(sampler := Resetting(0))
  }

  function DoCycleFail(s: Sys): Sys {
    if s.sampler.Reading? then s.(store := SetInputFault(s.store, true), sampler := Paused) else s
  }

  /** The store after a successful cycle. */
  function PublishedStore(
      store: Store, hwOk: bool, commanded: Commanded, now: int,
      inputs: InputSnapshot, outputs: set<Relay>, wall: int): Store
  {
    var applied := SetInputFault(ApplyOutputs(ApplyInputs(store, inputs, wall), outputs), false);
    if !hwOk || !Consistent(commanded, outputs, now) then SetOutputFault(applied, true) else applied
  }

  function DoPublish(s: Sys, inputs: InputSnapshot, outputs: set<Relay>, wall: int): Sys {
    if s.sampler.Reading? then
      s.(store := PublishedStore(s.store, s.driver.hwOk, s.driver.commanded, s.now, inputs, outputs, wall),
         sampler := Paused, publishes := s.publishes + 1)
    else s
  }

  // ─── Steps and runs ───────────────────────────────────────────────

  /** An event that is not enabled changes nothing. */
  function Step(s: Sys, e: Event): Sys {
    match e
    case Tick(ms) => s.(now := s.now + ms)
    case Arrive(conn, request) => DoArrive(s, conn, request)
    case Disconnect(conn) => s.(comms := AfterDisconnect(s.comms, conn))
    case Start => DoStart(s)
    case Answer(how) => DoAnswer(s, how)
    case Wake => DoWake(s)
    case Fire(id) => DoFire(s, id)
    case CycleBegin => DoCycleBegin(s)
    case CycleFail => DoCycleFail(s)
    case Publish(inputs, outputs, wall) => DoPublish(s, inputs, outputs, wall)
    case HwCheck(ok) => s.(driver := s.driver.(hwOk := ok))
  }

  function Run(s: Sys, es: seq<Event>): Sys
    decreases |es|
  {
    if es == [] then s else Run(Step(s, es[0]), es[1..])
  }

  /** Starting a command touches the queue, the wire and the store only. */
  lemma StartIsLocal(s: Sys)
    ensures var after := DoStart(s); after == s.(queue := after.queue, wire := after.wire, store := after.store)
  {
    if s.queue != [] {
      match s.queue[0] case SetInhibit(_) => case SetForce(_) => case PulseTest(_) => case PulseBypass(_) =>
    }
  }

  /** The parts of the state that answering a write never touches. */
  predicate SameElsewhere(s: Sys, after: Sys) {
    && after.now == s.now && after.queue == s.queue && after.driver.hwOk == s.driver.hwOk
    && after.attempts == s.attempts && after.publishes == s.publishes
    && after.comms.commander == s.comms.commander
  }

  lemma AnswerIsLocal(s: Sys, how: Answered)
    ensures SameElsewhere(s, DoAnswer(s, how))
  {
    if s.wire != [] {
      var popped, w := Popped(s, how), s.wire[0];
      assert SameElsewhere(s, popped);
      match w.owner
      case ByDispatch => assert DoAnswer(s, how).driver.hwOk == popped.driver.hwOk;
      case ByPulse(_) => assert DoAnswer(s, how).driver.hwOk == popped.driver.hwOk;
      case ByWatchdog => ReleaseIsLocal(popped, how == Landed);
      case ByTask(id) => assert DoAnswer(s, how).driver.hwOk == popped.driver.hwOk;
      case BySampler => ResetIsLocal(popped, how == Landed);
    }
  }

  lemma ReleaseIsLocal(s: Sys, ok: bool)
    ensures SameElsewhere(s, ResumeWatchdog(s, ok)) && ResumeWatchdog(s, ok).driver.slots == s.driver.slots
  {
  }

  lemma ResetIsLocal(s: Sys, ok: bool)
    ensures SameElsewhere(s, ResumeReset(s, ok)) && ResumeReset(s, ok).driver.slots == s.driver.slots
  {
  }

  /** A pulse whose ON write landed takes its relay's task slot, and nothing else does. */
  lemma AnswerSlots(s: Sys, how: Answered)
    requires s.wire != []
    ensures var w, before, after := s.wire[0], s.driver, DoAnswer(s, how).driver;
      after.slots ==
        if w.owner.ByPulse? && how == Landed then before.slots[w.relay := before.nextTask] else before.slots
  {
    var popped := Popped(s, how);
    match s.wire[0].owner
    case ByWatchdog => ReleaseIsLocal(popped, how == Landed);
    case BySampler => ResetIsLocal(popped, how == Landed);
    case _ =>
  }

  lemma {:induction false} RunAppend(s: Sys, a: seq<Event>, b: seq<Event>)
    ensures Run(s, a + b) == Run(Run(s, a), b)
    decreases |a|
  {
    if a == [] {
      assert a + b == b;
    } else {
      assert (a + b)[1..] == a[1..] + b;
      RunAppend(Step(s, a[0]), a[1..], b);
    }
  }

  lemma RunOfTwo(s: Sys, a: Event, b: Event)
    ensures Run(s, [a, b]) == Step(Step(s, a), b)
  {
    assert [a, b][1..] == [b] && [b][1..] == [];
    assert Run(Step(s, a), [b]) == Step(Step(s, a), b);
  }

  lemma RunSnoc(s: Sys, es: seq<Event>)
    requires es != []
    ensures Run(s, es) == Step(Run(s, es[..|es| - 1]), es[|es| - 1])
  {
    var last := [es[|es| - 1]];
    RunAppend(s, es[..|es| - 1], last);
    assert es == es[..|es| - 1] + last && last[1..] == [];
  }
}
