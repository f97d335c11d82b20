/** Whole-system properties: a command reaches its relay and reads back, and the store of the running
    system is a run of store operations, so everything proved of those holds of the system. */
module EndToEnd {
  import opened Domain
  import opened FaultBits
  import opened Registers
  import opened CommsLoss
  import opened AdamOutputs
  import opened ModbusServer
  import opened ControlSystem
  import H = StoreHistory

  // ─── A command reaches its relay ──────────────────────────────────

  function RelayOf(i: CommandIntent): Relay {
    match i
    case PulseTest(_) => TestRelay
    case SetInhibit(_) => InhibitRelay
    case SetForce(_) => ForceRelay
    case PulseBypass(_) => BypassRelay
  }

  /** Nothing waits, nothing is outstanding, and the command is permitted in this mode and not gated. */
  predicate Ready(s: Sys, i: CommandIntent) {
    && s.queue == [] && s.wire == []
    && Allowed(Encoding(i).0, s.store.snap.atsMode) && (Asserts(i) ==> s.driver.hwOk)
  }

  function GiveCommand(conn: Conn, i: CommandIntent): seq<Event> {
    [Arrive(conn, WriteSingle(Encoding(i).0, Encoding(i).1)), Start, Answer(Landed)]
  }

  lemma CommandArrives(s: Sys, conn: Conn, i: CommandIntent)
    requires Ready(s, i) && (i.PulseTest? || i.PulseBypass? ==> i.ms == 750)
    ensures var after := Step(s, Arrive(conn, WriteSingle(Encoding(i).0, Encoding(i).1)));
      after == s.(comms := Comms(Rearm(s.now), Some(conn)), attempts := 0, queue := [i],
                  store := WithReject(s.store, false))
  {
    var r := WriteSingle(Encoding(i).0, Encoding(i).1);
    CommandsRoundTrip(Encoding(i).0, Encoding(i).1, i);
    WritesAreAllOrNothing(s.store, r);
    assert WrittenValues(r)[1..] == [];
    assert Patterns(r.address, WrittenValues(r)) == [i] + Patterns(r.address + 1, []);
    assert AllAllowed(r.address, r.address + 1, s.store.snap.atsMode);
  }

  lemma CommandIsWritten(s: Sys, i: CommandIntent)
    requires s.queue == [i] && s.wire == [] && (Asserts(i) ==> s.driver.hwOk)
    requires i.PulseTest? || i.PulseBypass? ==> !Pulsing(s.driver, RelayOf(i))
    ensures var owner := if i.PulseTest? || i.PulseBypass? then ByPulse(i.ms) else ByDispatch;
      Step(s, Start) == s.(queue := [], wire := [CoilWrite(RelayOf(i), Asserts(i), owner)])
  {
    match i
    case SetInhibit(_) =>
    case SetForce(_) =>
    case PulseTest(_) =>
    case PulseBypass(_) =>
  }

  lemma CommandDrives(s: Sys, i: CommandIntent)
    requires s.queue == [i] && s.wire == [] && (Asserts(i) ==> s.driver.hwOk)
    requires i.PulseTest? || i.PulseBypass? ==> !Pulsing(s.driver, RelayOf(i))
    ensures var after := Step(Step(s, Start), Answer(Landed));
      && after.on == (if Asserts(i) then s.on + {RelayOf(i)} else s.on - {RelayOf(i)})
      && after.comms == s.comms && after.queue == [] && after.wire == []
      && after.sampler == s.sampler && after.outputsReset == s.outputsReset
      && after.watchdog == s.watchdog && after.now == s.now
      && OUTPUT_BIT !in after.store.snap.faultBits
  {
    CommandIsWritten(s, i);
  }

  /** Writing a command that the mode permits to an idle system makes its sender the commander, re-arms
      the watchdog, and drives exactly the commanded relay to exactly the commanded state. */
  lemma CommandReachesRelay(s: Sys, conn: Conn, i: CommandIntent)
    requires Ready(s, i)
    requires i.PulseTest? || i.PulseBypass? ==> i.ms == 750 && !Pulsing(s.driver, RelayOf(i))
    ensures var after := Run(s, GiveCommand(conn, i));
      && after.on == (if Asserts(i) then s.on + {RelayOf(i)} else s.on - {RelayOf(i)})
      && after.comms == Comms(Rearm(s.now), Some(conn))
      && after.queue == [] && after.wire == []
      && after.sampler == s.sampler && after.outputsReset == s.outputsReset
      && after.watchdog == s.watchdog && after.now == s.now
      && OUTPUT_BIT !in after.store.snap.faultBits
  {
    var es := GiveCommand(conn, i);
    CommandArrives(s, conn, i);
    var s1 := Step(s, es[0]);
    CommandDrives(s1, i);
    var s2 := Step(s1, es[1]);
    var s3 := Step(s2, es[2]);
    assert es[2..][1..] == [] && Run(s2, es[2..]) == s3;
    assert es[1..][1..] == es[2..] && Run(s1, es[1..]) == s3;
    assert Run(s, es) == s3;
  }

  /** After the next honest sample every read-back register reports its relay's actual state. */
  lemma SampleReadsBack(s: Sys, inputs: InputSnapshot, wall: int, id: Identity, now: Pinned, r: Relay)
    requires s.sampler.Reading?
    ensures ReadReply(Step(s, Publish(inputs, s.on, wall)).store, id, now, ReadRegisters(ReadBackAddress(r), 1))
         == [if r in s.on then 1 else 0]
  {
  }

  /** A release attempt clears the two maintained read-backs at once and leaves the others. */
  lemma AttemptClearsReadBacks(s: Sys, id: Identity, now: Pinned)
    requires Attempts(s)
    ensures var before := ReadReply(s.store, id, now, ReadRegisters(0x0040, 4));
      ReadReply(Step(s, Wake).store, id, now, ReadRegisters(0x0040, 4)) == [before[0], 0, 0, before[3]]
  {
  }

  /** The fail-safe gate: unverified, an assertion is refused at call entry and reported, and
      nothing else changes; a release always goes out. */
  lemma GateRefusesAssertionsOnly(s: Sys)
    requires s.queue != [] && !s.driver.hwOk
    ensures var after := Step(s, Start);
      if Asserts(s.queue[0]) then after == OutputFault(s, true).(queue := s.queue[1..])
      else after.wire == s.wire + [CoilWrite(RelayOf(s.queue[0]), false, ByDispatch)]
  {
  }

  // ─── Every accepted command starts once, in order ─────────────────

  /** The commands the run's requests dispatch, in order. */
  function Dispatches(s: Sys, es: seq<Event>): seq<CommandIntent>
    decreases |es|
  {
    if es == [] then []
    else (if es[0].Arrive? then Handle(s.store, es[0].request).intents else []) + Dispatches(Step(s, es[0]), es[1..])
  }

  /** How many command tasks the run starts. */
  function Started(s: Sys, es: seq<Event>): nat
    decreases |es|
  {
    if es == [] then 0 else (if es[0].Start? && s.queue != [] then 1 else 0) + Started(Step(s, es[0]), es[1..])
  }

  lemma StepQueue(s: Sys, e: Event)
    ensures Step(s, e).queue ==
      match e
      case Arrive(_, request) => s.queue + Handle(s.store, request).intents
      case Start => if s.queue == [] then [] else s.queue[1..]
      case _ => s.queue
  {
    match e
    case Answer(how) => AnswerIsLocal(s, how);
    case Start =>
      if s.queue != [] {
        match s.queue[0] case SetInhibit(_) => case SetForce(_) => case PulseTest(_) => case PulseBypass(_) =>
      }
    case _ =>
  }

  /** One step takes at most the front command, and adds what it dispatches at the back. */
  lemma StepFlows(s: Sys, e: Event, more: seq<CommandIntent>)
    ensures var arrived := if e.Arrive? then Handle(s.store, e.request).intents else [];
      var gone := if e.Start? && s.queue != [] then [s.queue[0]] else [];
      s.queue + (arrived + more) == gone + (Step(s, e).queue + more)
  {
    StepQueue(s, e);
    if e.Start? && s.queue != [] {
      assert s.queue == [s.queue[0]] + s.queue[1..];
    }
  }

  /** `left` is `total` less `n` from the front. */
  predicate LeftOf(left: seq<CommandIntent>, total: seq<CommandIntent>, n: nat) {
    n <= |total| && left == total[n..]
  }

  lemma DropFront(
      left: seq<CommandIntent>, total: seq<CommandIntent>, front: seq<CommandIntent>, rest: seq<CommandIntent>, n: nat)
    requires total == front + rest && LeftOf(left, rest, n)
    ensures LeftOf(left, total, |front| + n)
  {
  }

  /** In every run the commands start in the order they were accepted, each exactly once: what still
      waits is what was there and what was dispatched, less as many from the front as have started. */
  lemma {:induction false} CommandsStartInOrder(s: Sys, es: seq<Event>)
    ensures LeftOf(Run(s, es).queue, s.queue + Dispatches(s, es), Started(s, es))
    decreases |es|
  {
    if es != [] {
      var after := Step(s, es[0]);
      var more, n := Dispatches(after, es[1..]), Started(after, es[1..]);
      CommandsStartInOrder(after, es[1..]);
      StepFlows(s, es[0], more);
      var gone := if es[0].Start? && s.queue != [] then [s.queue[0]] else [];
      DropFront(Run(s, es).queue, s.queue + Dispatches(s, es), gone, after.queue + more, n);
    }
  }

  // ─── The system's store is a run of store operations ──────────────

  lemma {:induction false} HistoryAppend(s: Store, a: seq<H.Op>, b: seq<H.Op>)
    ensures H.Run(s, a + b) == H.Run(H.Run(s, a), b)
    decreases |b|
  {
    if b == [] {
      assert a + b == a;
    } else {
      assert (a + b)[..|a + b| - 1] == a + b[..|b| - 1];
      HistoryAppend(s, a, b[..|b| - 1]);
    }
  }

  function ProbeOps(s: Store, addr: int, count: nat): seq<H.Op>
    decreases count
  {
    if count == 0 then []
    else if !Allowed(addr, s.snap.atsMode) then [H.Probe(addr)]
    else [H.Probe(addr)] + ProbeOps(s, addr + 1, count - 1)
  }

  function WriteOps(addr: int, values: seq<int>): seq<H.Op>
    decreases |values|
  {
    if values == [] then [] else [H.Write(addr, values[0])] + WriteOps(addr + 1, values[1..])
  }

  function RequestOps(s: Store, r: Request): seq<H.Op> {
    if !IsHoldingWrite(r) then []
    else
      var probes := ProbeOps(s, r.address, |WrittenValues(r)|);
      if Handle(s, r).accepted then probes + WriteOps(r.address, WrittenValues(r)) else probes
  }

  lemma OneOp(s: Store, op: H.Op)
    ensures H.Run(s, [op]) == H.Apply(s, op)
  {
  }

  lemma {:induction false} ProbesAreOps(s: Store, addr: int, count: nat)
    ensures H.Run(s, ProbeOps(s, addr, count)) == ProbeAll(s, addr, count).0
    ensures forall op :: op in ProbeOps(s, addr, count) ==> op.Probe?
    decreases count
  {
    if count > 0 {
      OneOp(s, H.Probe(addr));
      if Allowed(addr, s.snap.atsMode) {
        ProbesAreOps(s, addr + 1, count - 1);
        HistoryAppend(s, [H.Probe(addr)], ProbeOps(s, addr + 1, count - 1));
      }
    }
  }

  lemma {:induction false} WritesAreOps(s: Store, addr: int, values: seq<int>)
    ensures H.Run(s, WriteOps(addr, values)) == WriteAll(s, addr, values).0
    ensures forall op :: op in WriteOps(addr, values) ==> op.Write?
    decreases |values|
  {
    if values != [] {
      OneOp(s, H.Write(addr, values[0]));
      WritesAreOps(Written(s, addr, values[0]), addr + 1, values[1..]);
      HistoryAppend(s, [H.Write(addr, values[0])], WriteOps(addr + 1, values[1..]));
    }
  }

  lemma RequestsAreOps(s: Store, r: Request)
    ensures H.Run(s, RequestOps(s, r)) == Handle(s, r).store
    ensures forall op :: op in RequestOps(s, r) ==> op.Probe? || op.Write?
  {
    if IsHoldingWrite(r) {
      var n := |WrittenValues(r)|;
      ProbesAreOps(s, r.address, n);
      WritesAreOps(ProbeAll(s, r.address, n).0, r.address, WrittenValues(r));
      HistoryAppend(s, ProbeOps(s, r.address, n), WriteOps(r.address, WrittenValues(r)));
    }
  }

  /** The store operations one step of the system performs. */
  function StepOps(s: Sys, e: Event): seq<H.Op> {
    match e
    case Arrive(_, request) => RequestOps(s.store, request)
    case Publish(inputs, outputs, wall) =>
      if !s.sampler.Reading? then []
      else
        [H.Sample(inputs, wall), H.Outputs(outputs), H.InputFault(false)]
        + (if !s.driver.hwOk || !Consistent(s.driver.commanded, outputs, s.now) then [H.OutputFault(true)] else [])
    case CycleFail => if s.sampler.Reading? then [H.InputFault(true)] else []
    case Wake => if Attempts(s) then [H.Release] else []
    case Start =>
      if s.queue == [] then []
      else if !s.driver.hwOk && Asserts(s.queue[0]) then [H.OutputFault(true)]
      else if !s.queue[0].SetInhibit? && !s.queue[0].SetForce? && Pulsing(s.driver, RelayOf(s.queue[0])) then
        [H.OutputFault(false)]
      else []
    case Answer(how) =>
      if s.wire == [] then []
      else if s.wire[0].owner.ByDispatch? || s.wire[0].owner.ByPulse? then [H.OutputFault(how != Landed)]
      else if s.wire[0].owner.BySampler? && s.sampler.Resetting? && s.sampler.k < |RESET_ORDER| && how != Landed then
        [H.InputFault(true)]
      else []
    case _ => []
  }

  function RunOps(s: Sys, es: seq<Event>): seq<H.Op>
    decreases |es|
  {
    if es == [] then [] else StepOps(s, es[0]) + RunOps(Step(s, es[0]), es[1..])
  }

  lemma StepRefines(s: Sys, e: Event)
    ensures Step(s, e).store == H.Run(s.store, StepOps(s, e))
  {
    match e
    case Arrive(_, request) => RequestsAreOps(s.store, request);
    case Publish(inputs, outputs, wall) => PublishRefines(s, inputs, outputs, wall);
    case Start => StartRefines(s);
    case Answer(how) => AnswerRefines(s, how);
    case CycleFail => OneOp(s.store, H.InputFault(true));
    case Wake => OneOp(s.store, H.Release);
    case _ =>
  }

  lemma StartRefines(s: Sys)
    ensures DoStart(s).store == H.Run(s.store, StepOps(s, Start))
  {
    OneOp(s.store, H.OutputFault(true));
    OneOp(s.store, H.OutputFault(false));
    if s.queue != [] {
      match s.queue[0] case SetInhibit(_) => case SetForce(_) => case PulseTest(_) => case PulseBypass(_) =>
    }
  }

  lemma AnswerRefines(s: Sys, how: Answered)
    ensures DoAnswer(s, how).store == H.Run(s.store, StepOps(s, Answer(how)))
  {
    OneOp(s.store, H.InputFault(true));
    OneOp(s.store, H.OutputFault(true));
    OneOp(s.store, H.OutputFault(false));
  }

  lemma PublishRefines(s: Sys, inputs: InputSnapshot, outputs: set<Relay>, wall: int)
    ensures Step(s, Publish(inputs, outputs, wall)).store == H.Run(s.store, StepOps(s, Publish(inputs, outputs, wall)))
  {
    var a, b, c := H.Sample(inputs, wall), H.Outputs(outputs), H.InputFault(false);
    var s1 := ApplyInputs(s.store, inputs, wall);
    var s2 := ApplyOutputs(s1, outputs);
    OneOp(s.store, a);
    OneOp(s1, b);
    OneOp(s2, c);
    HistoryAppend(s.store, [a], [b]);
    HistoryAppend(s.store, [a] + [b], [c]);
    assert [a, b, c] == [a] + [b] + [c];
    OneOp(SetInputFault(s2, false), H.OutputFault(true));
    HistoryAppend(s.store, [a, b, c], [H.OutputFault(true)]);
    assert [a, b, c] + [] == [a, b, c];
  }

  /** Refinement: along every run the system's store is the run of the operations it performs. */
  lemma {:induction false} StoreIsHistory(s: Sys, es: seq<Event>)
    ensures Run(s, es).store == H.Run(s.store, RunOps(s, es))
    decreases |es|
  {
    if es != [] {
      StepRefines(s, es[0]);
      StoreIsHistory(Step(s, es[0]), es[1..]);
      HistoryAppend(s.store, StepOps(s, es[0]), RunOps(Step(s, es[0]), es[1..]));
    }
  }

  /** The positions of the samples a run publishes. */
  function PublishedPositions(s: Sys, es: seq<Event>): seq<Position>
    decreases |es|
  {
    if es == [] then []
    else
      (if es[0].Publish? && s.sampler.Reading? then [es[0].inputs.position] else [])
      + PublishedPositions(Step(s, es[0]), es[1..])
  }

  lemma {:induction false} PositionsAppend(a: seq<H.Op>, b: seq<H.Op>)
    ensures H.Positions(a + b) == H.Positions(a) + H.Positions(b)
    decreases |b|
  {
    if b == [] {
      assert a + b == a;
    } else {
      assert (a + b)[..|a + b| - 1] == a + b[..|b| - 1];
      PositionsAppend(a, b[..|b| - 1]);
    }
  }

  lemma {:induction false} NoSamplesNoPositions(ops: seq<H.Op>)
    requires forall op :: op in ops ==> !op.Sample?
    ensures H.Positions(ops) == []
  {
    if ops != [] {
      NoSamplesNoPositions(ops[..|ops| - 1]);
    }
  }

  lemma StepPositions(s: Sys, e: Event)
    ensures H.Positions(StepOps(s, e)) == if e.Publish? && s.sampler.Reading? then [e.inputs.position] else []
  {
    if e.Publish? && s.sampler.Reading? {
      var rest := StepOps(s, e)[1..];
      assert StepOps(s, e) == [H.Sample(e.inputs, e.wall)] + rest;
      PositionsAppend([H.Sample(e.inputs, e.wall)], rest);
      NoSamplesNoPositions(rest);
      assert [H.Sample(e.inputs, e.wall)][..0] == [];
      assert H.Positions([H.Sample(e.inputs, e.wall)]) == [e.inputs.position];
    } else {
      if e.Arrive? {
        RequestsAreOps(s.store, e.request);
      }
      NoSamplesNoPositions(StepOps(s, e));
    }
  }

  lemma {:induction false} RunPositions(s: Sys, es: seq<Event>)
    ensures H.Positions(RunOps(s, es)) == PublishedPositions(s, es)
    decreases |es|
  {
    if es != [] {
      StepPositions(s, es[0]);
      RunPositions(Step(s, es[0]), es[1..]);
      PositionsAppend(StepOps(s, es[0]), RunOps(Step(s, es[0]), es[1..]));
    }
  }

  /** What a boot does to the freshly loaded store. */
  function BootOps(hwOk: bool): seq<H.Op> {
    if hwOk then [] else [H.OutputFault(true)]
  }

  lemma RunFromBootIsHistory(on: set<Relay>, persisted: Persisted, wall: int, hwOk: bool, now: int, es: seq<Event>)
    ensures var s0 := Boot(on, persisted, wall, hwOk, now);
      Run(s0, es).store == H.Run(BootStore(persisted, wall), BootOps(hwOk) + RunOps(s0, es))
  {
    var s0 := Boot(on, persisted, wall, hwOk, now);
    OneOp(BootStore(persisted, wall), H.OutputFault(true));
    StoreIsHistory(s0, es);
    HistoryAppend(BootStore(persisted, wall), BootOps(hwOk), RunOps(s0, es));
  }

  /** In the whole system, whatever requests, dispatches, releases, failures and gate changes are
      interleaved, the published lifetime count is the loaded one plus the transfers among the
      published samples. */
  lemma SystemCountsTransfers(on: set<Relay>, persisted: Persisted, wall: int, hwOk: bool, now: int, es: seq<Event>)
    ensures var s0 := Boot(on, persisted, wall, hwOk, now);
      Run(s0, es).store.snap.lifetime == persisted.lifetime + H.Transfers(PublishedPositions(s0, es))
  {
    var s0 := Boot(on, persisted, wall, hwOk, now);
    var ops := RunOps(s0, es);
    RunFromBootIsHistory(on, persisted, wall, hwOk, now, es);
    H.LifetimeCountsTransfers(persisted, wall, BootOps(hwOk) + ops);
    NoSamplesNoPositions(BootOps(hwOk));
    PositionsAppend(BootOps(hwOk), ops);
    RunPositions(s0, es);
    assert [] + H.Positions(ops) == H.Positions(ops);
  }
}
