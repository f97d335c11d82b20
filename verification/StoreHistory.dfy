/** What the store's counters and fault word mean over whole runs of operations. */
module StoreHistory {
  import opened Domain
  import opened FaultBits
  import opened Registers

  /** Every operation that can reach the store after construction. */
  datatype Op =
    | Sample(inputs: InputSnapshot, wall: int)
    | Outputs(outputs: set<Relay>)
    | InputFault(on: bool)
    | OutputFault(on: bool)
    | Release
    | Probe(addr: int)
    | Write(addr: int, value: int)

  function Apply(s: Store, op: Op): Store {
    match op
    case Sample(inputs, wall) => ApplyInputs(s, inputs, wall)
    case Outputs(outputs) => ApplyOutputs(s, outputs)
    case InputFault(on) => SetInputFault(s, on)
    case OutputFault(on) => SetOutputFault(s, on)
    case Release => ReleaseMaintained(s)
    case Probe(addr) => Probed(s, addr)
    case Write(addr, value) => Written(s, addr, value)
  }

  function Run(s: Store, ops: seq<Op>): Store {
    if ops == [] then s else Apply(Run(s, ops[..|ops| - 1]), ops[|ops| - 1])
  }

  // ─── Counter refinement ───────────────────────────────────────────

  /** The positions of the applied samples, oldest first. */
  function Positions(ops: seq<Op>): seq<Position> {
    if ops == [] then []
    else Positions(ops[..|ops| - 1]) + (if Last(ops).Sample? then [Last(ops).inputs.position] else [])
  }

  function Last<T>(s: seq<T>): T
    requires s != []
  {
    s[|s| - 1]
  }

  /** The number of adjacent pairs that are a transfer to the generator. */
  function Transfers(ps: seq<Position>): nat {
    if |ps| < 2 then 0 else Transfers(ps[1..]) + (if ToGenerator(ps[0], ps[1]) then 1 else 0)
  }

  lemma {:induction false} TransfersSplit(a: seq<Position>, b: seq<Position>)
    requires a != [] && b != []
    ensures Transfers(a + b) == Transfers(a) + Transfers(b) + (if ToGenerator(Last(a), b[0]) then 1 else 0)
  {
    if |a| == 1 {
      assert (a + b)[1..] == b;
    } else {
      assert (a + b)[1..] == a[1..] + b;
      TransfersSplit(a[1..], b);
    }
  }

  /** Over any run from a (re)start the lifetime count has grown by exactly the number of adjacent
      transfer pairs among the applied samples: the boot position never counts, and operations
      other than an applied sample never count. */
  lemma {:induction false} LifetimeCountsTransfers(p: Persisted, wall: int, ops: seq<Op>)
    ensures Run(BootStore(p, wall), ops).snap.lifetime == p.lifetime + Transfers(Positions(ops))
    ensures Run(BootStore(p, wall), ops).snap.position
         == if Positions(ops) == [] then UnknownPosition else Last(Positions(ops))
  {
    if ops != [] {
      var before, op := ops[..|ops| - 1], Last(ops);
      LifetimeCountsTransfers(p, wall, before);
      if op.Sample? && Positions(before) != [] {
        TransfersSplit(Positions(before), [op.inputs.position]);
      } else {
        assert Positions(before) + [] == Positions(before);
      }
    }
  }

  /** The wall-clocks of the transfers to the generator, and of the retransfers, oldest first. */
  function TransferTimes(ops: seq<Op>): seq<int> {
    if ops == [] then [] else
      var before, op := ops[..|ops| - 1], Last(ops);
      TransferTimes(before)
      + (if op.Sample? && ToGenerator(PositionAfter(before), op.inputs.position) then [op.wall] else [])
  }

  function RetransferTimes(ops: seq<Op>): seq<int> {
    if ops == [] then [] else
      var before, op := ops[..|ops| - 1], Last(ops);
      RetransferTimes(before)
      + (if op.Sample? && ToUtility(PositionAfter(before), op.inputs.position) then [op.wall] else [])
  }

  /** The inputs last applied, if any. */
  function LastSample(ops: seq<Op>): Option<InputSnapshot> {
    if ops == [] then None
    else if Last(ops).Sample? then Some(Last(ops).inputs)
    else LastSample(ops[..|ops| - 1])
  }

  function PositionAfter(ops: seq<Op>): Position {
    match LastSample(ops) case Some(inputs) => inputs.position case None => UnknownPosition
  }

  lemma ContactsStep(s: Store, op: Op)
    ensures var before, after := s.snap, Apply(s, op).snap;
      if op.Sample? then
        && after.position == op.inputs.position && after.atsMode == op.inputs.atsMode
        && after.normalAvailable == op.inputs.normalAvailable
        && after.emergencyAvailable == op.inputs.emergencyAvailable
        && after.engineStartCalling == op.inputs.engineStartCalling
      else
        && after.position == before.position && after.atsMode == before.atsMode
        && after.normalAvailable == before.normalAvailable
        && after.emergencyAvailable == before.emergencyAvailable
        && after.engineStartCalling == before.engineStartCalling
  {
  }

  /** The published contacts, position and mode are those of the last applied sample. */
  lemma {:induction false} ContactsMirrorLastSample(p: Persisted, wall: int, ops: seq<Op>)
    ensures var snap := Run(BootStore(p, wall), ops).snap;
      && snap.position == PositionAfter(ops)
      && match LastSample(ops)
         case None => !snap.normalAvailable && !snap.emergencyAvailable && !snap.engineStartCalling
         case Some(inputs) =>
           && snap.normalAvailable == inputs.normalAvailable && snap.atsMode == inputs.atsMode
           && snap.emergencyAvailable == inputs.emergencyAvailable
           && snap.engineStartCalling == inputs.engineStartCalling
  {
    if ops != [] {
      ContactsMirrorLastSample(p, wall, ops[..|ops| - 1]);
      ContactsStep(Run(BootStore(p, wall), ops[..|ops| - 1]), Last(ops));
    }
  }

  /** The relays reported on: those of the last output read, less the two maintained ones if a release
      came after it. */
  function ReadBacks(ops: seq<Op>): set<Relay> {
    if ops == [] then {}
    else
      match Last(ops)
      case Outputs(outputs) => outputs
      case Release => ReadBacks(ops[..|ops| - 1]) - {InhibitRelay, ForceRelay}
      case _ => ReadBacks(ops[..|ops| - 1])
  }

  /** The read-backs over any run: no request, sample or fault report touches them. */
  lemma {:induction false} ReadBacksFollowHistory(p: Persisted, wall: int, ops: seq<Op>)
    ensures Run(BootStore(p, wall), ops).snap.active == ReadBacks(ops)
  {
    if ops != [] {
      ReadBacksFollowHistory(p, wall, ops[..|ops| - 1]);
      ReadBacksStep(Run(BootStore(p, wall), ops[..|ops| - 1]), Last(ops));
    }
  }

  lemma ReadBacksStep(s: Store, op: Op)
    ensures Apply(s, op).snap.active ==
      match op
      case Outputs(outputs) => outputs
      case Release => s.snap.active - {InhibitRelay, ForceRelay}
      case _ => s.snap.active
  {
  }

  function LastOr(times: seq<int>, loaded: int): int {
    if times == [] then loaded else Last(times)
  }

  /** The two timestamps are those of the last transfer and the last retransfer, else as loaded. */
  lemma {:induction false} TimestampsFollowHistory(p: Persisted, wall: int, ops: seq<Op>)
    ensures Run(BootStore(p, wall), ops).snap.lastToGenerator == LastOr(TransferTimes(ops), p.lastToGenerator)
    ensures Run(BootStore(p, wall), ops).snap.lastToUtility == LastOr(RetransferTimes(ops), p.lastToUtility)
  {
    if ops != [] {
      var before := ops[..|ops| - 1];
      TimestampsFollowHistory(p, wall, before);
      ContactsMirrorLastSample(p, wall, before);
      StampStep(Run(BootStore(p, wall), before), Last(ops));
    }
  }

  lemma StampStep(s: Store, op: Op)
    ensures Apply(s, op).snap.lastToGenerator ==
      if op.Sample? && ToGenerator(s.snap.position, op.inputs.position) then op.wall else s.snap.lastToGenerator
    ensures Apply(s, op).snap.lastToUtility ==
      if op.Sample? && ToUtility(s.snap.position, op.inputs.position) then op.wall else s.snap.lastToUtility
  {
  }

  /** Adjacent repetitions removed. */
  function Collapse(ps: seq<Position>): (r: seq<Position>)
    ensures ps != [] ==> r != [] && r[0] == ps[0]
  {
    if |ps| < 2 then ps
    else if ps[0] == ps[1] then Collapse(ps[1..])
    else [ps[0]] + Collapse(ps[1..])
  }

  /** Sampling the same position again never counts: only the collapsed trajectory matters. */
  lemma {:induction false} RepeatsNeverCount(ps: seq<Position>)
    ensures Transfers(ps) == Transfers(Collapse(ps))
  {
    if |ps| >= 2 {
      RepeatsNeverCount(ps[1..]);
      if ps[0] != ps[1] {
        assert Collapse(ps)[1..] == Collapse(ps[1..]);
      }
    }
  }

  /** Away from the generator nothing counts. */
  lemma {:induction false} AwayIsFlat(ps: seq<Position>)
    requires Generator !in ps
    ensures Transfers(ps) == 0
  {
    if |ps| >= 2 {
      AwayIsFlat(ps[1..]);
    }
  }

  lemma DetourAlone(mid: seq<Position>)
    requires mid != [] && Generator !in mid
    ensures Transfers([Generator] + mid + [Generator]) == if Last(mid) == UnknownPosition then 0 else 1
  {
    AwayIsFlat(mid);
    TransfersSplit([Generator], mid);
    TransfersSplit([Generator] + mid, [Generator]);
    assert Last([Generator] + mid) == Last(mid);
  }

  /** Replacing a piece of a trajectory that starts and ends at the generator moves only its own count. */
  lemma SplicedTransfers(before: seq<Position>, piece: seq<Position>, after: seq<Position>)
    requires piece != [] && piece[0] == Generator == Last(piece)
    ensures Transfers(before + piece + after) == Transfers(before + [Generator] + after) + Transfers(piece)
  {
    SplicedBehind(before, piece);
    if after == [] {
      assert before + piece + after == before + piece && before + [Generator] + after == before + [Generator];
    } else {
      TransfersSplit(before + piece, after);
      TransfersSplit(before + [Generator], after);
    }
  }

  lemma SplicedBehind(before: seq<Position>, piece: seq<Position>)
    requires piece != [] && piece[0] == Generator
    ensures Transfers(before + piece) == Transfers(before + [Generator]) + Transfers(piece)
  {
    if before == [] {
      assert before + piece == piece && before + [Generator] == [Generator];
    } else {
      TransfersSplit(before, piece);
      TransfersSplit(before, [Generator]);
    }
  }

  /** Exact: leaving the generator and coming back adds one transfer, unless the last position seen
      before the return is `unknown`; then it adds none. Wherever it occurs, whatever lies between. */
  lemma DetourCountsExactly(before: seq<Position>, mid: seq<Position>, after: seq<Position>)
    requires mid != [] && Generator !in mid
    ensures Transfers(before + [Generator] + mid + [Generator] + after)
         == Transfers(before + [Generator] + after) + if Last(mid) == UnknownPosition then 0 else 1
  {
    var detour := [Generator] + mid + [Generator];
    DetourAlone(mid);
    SplicedTransfers(before, detour, after);
    assert before + [Generator] + mid + [Generator] + after == before + detour + after;
  }

  /** So a detour through `unknown` and back, of any length, adds nothing. */
  lemma UnknownDetourNeverCounts(before: seq<Position>, n: nat, after: seq<Position>)
    ensures Transfers(before + [Generator] + seq(n, i => UnknownPosition) + [Generator] + after)
         == Transfers(before + [Generator] + after)
  {
    var gap := seq(n, i => UnknownPosition);
    if n == 0 {
      SplicedTransfers(before, [Generator, Generator], after);
      assert before + [Generator] + gap + [Generator] + after == before + [Generator, Generator] + after;
    } else {
      DetourCountsExactly(before, gap, after);
    }
  }

  // ─── Fault-word history ───────────────────────────────────────────

  /** The argument of the last `set_input_fault`, false if there was none. */
  function LastInputFault(ops: seq<Op>): bool {
    ops != [] && (if Last(ops).InputFault? then Last(ops).on else LastInputFault(ops[..|ops| - 1]))
  }

  function LastOutputFault(ops: seq<Op>): bool {
    ops != [] && (if Last(ops).OutputFault? then Last(ops).on else LastOutputFault(ops[..|ops| - 1]))
  }

  /** The fault bits of the last applied sample, none before the first. */
  function LastReported(ops: seq<Op>): Bits {
    if ops == [] then {}
    else if Last(ops).Sample? then Last(ops).inputs.faultBits
    else LastReported(ops[..|ops| - 1])
  }

  /** The mode in force after `ops`: that of the last applied sample, unknown before the first. */
  function ModeAfter(ops: seq<Op>): Mode {
    if ops == [] then UnknownMode
    else if Last(ops).Sample? then Last(ops).inputs.atsMode
    else ModeAfter(ops[..|ops| - 1])
  }

  /** The last operation of `ops` is a command refused because of the mode. */
  predicate Rejects(ops: seq<Op>)
    requires ops != []
  {
    var op := Last(ops);
    (op.Probe? || op.Write?) && IsCommandAddress(op.addr) && !Allowed(op.addr, ModeAfter(ops))
  }

  /** The last operation of `ops` is an accepted command. */
  predicate Accepts(ops: seq<Op>)
    requires ops != []
  {
    var op := Last(ops);
    op.Write? && Allowed(op.addr, ModeAfter(ops)) && Pattern(op.addr, op.value).Some?
  }

  /** Some command was refused because of the mode and none has been accepted since. */
  ghost predicate RejectPending(ops: seq<Op>) {
    exists k :: 0 < k <= |ops| && Rejects(ops[..k])
             && forall j :: k < j <= |ops| ==> !Accepts(ops[..j])
  }

  lemma {:induction false} RejectLatchHistory(p: Persisted, wall: int, ops: seq<Op>)
    ensures Run(BootStore(p, wall), ops).snap.atsMode == ModeAfter(ops)
    ensures Run(BootStore(p, wall), ops).snap.modeReject <==> RejectPending(ops)
  {
    if ops != [] {
      RejectLatchHistory(p, wall, ops[..|ops| - 1]);
      RejectPendingStep(ops);
    }
  }

  /** How the last operation decides whether a rejection is pending. */
  lemma RejectPendingStep(ops: seq<Op>)
    requires ops != []
    ensures RejectPending(ops) <==> Rejects(ops) || (!Accepts(ops) && RejectPending(ops[..|ops| - 1]))
  {
    var n := |ops|;
    assert ops[..n] == ops;
    if Rejects(ops) {
      assert Rejects(ops[..n]);
    } else if Accepts(ops) {
      assert Accepts(ops[..n]);
    } else {
      RejectPendingCarries(ops);
    }
  }

  lemma RejectPendingCarries(ops: seq<Op>)
    requires ops != [] && !Rejects(ops) && !Accepts(ops)
    ensures RejectPending(ops) <==> RejectPending(ops[..|ops| - 1])
  {
    var n := |ops|;
    var before := ops[..n - 1];
    assert ops[..n] == ops;
    forall k | 0 <= k < n ensures before[..k] == ops[..k] {
    }
    if RejectPending(before) {
      RejectStaysPending(ops);
    }
    if k :| 0 < k <= n && Rejects(ops[..k]) && forall j :: k < j <= n ==> !Accepts(ops[..j]) {
      assert k < n && Rejects(before[..k]);
      forall j | k < j <= n - 1 ensures !Accepts(before[..j]) {
        assert !Accepts(ops[..j]);
      }
    }
  }

  lemma RejectStaysPending(ops: seq<Op>)
    requires ops != [] && !Accepts(ops) && RejectPending(ops[..|ops| - 1])
    ensures RejectPending(ops)
  {
    var n := |ops|;
    var before := ops[..n - 1];
    assert ops[..n] == ops;
    var k :| 0 < k <= n - 1 && Rejects(before[..k]) && forall j :: k < j <= n - 1 ==> !Accepts(before[..j]);
    assert before[..k] == ops[..k];
    forall j | k < j <= n ensures !Accepts(ops[..j]) {
      if j < n {
        assert before[..j] == ops[..j];
      }
    }
    assert Rejects(ops[..k]);
  }

  /** The stored bits made of these two local faults and the last reported word. */
  function Bitset(input: bool, output: bool, reported: Bits): Bits {
    (if input then {INPUT_BIT} else {}) + (if output then {OUTPUT_BIT} else {}) + Low16(reported - LOCAL)
  }

  lemma StepBits(s: Store, op: Op, input: bool, output: bool, reported: Bits)
    requires s.snap.faultBits == Bitset(input, output, reported)
    ensures Apply(s, op).snap.faultBits
         == Bitset(if op.InputFault? then op.on else input, if op.OutputFault? then op.on else output,
                   if op.Sample? then op.inputs.faultBits else reported)
  {
  }

  lemma {:induction false} FaultBitsHistory(p: Persisted, wall: int, ops: seq<Op>)
    ensures Run(BootStore(p, wall), ops).snap.faultBits
         == Bitset(LastInputFault(ops), LastOutputFault(ops), LastReported(ops))
  {
    if ops != [] {
      var before := ops[..|ops| - 1];
      FaultBitsHistory(p, wall, before);
      StepBits(Run(BootStore(p, wall), before), Last(ops),
               LastInputFault(before), LastOutputFault(before), LastReported(before));
    }
  }

  /** After any run the fault word is: bit 0, the last input-fault report or a pending mode
      rejection; bit 1, the last output-fault report; bits 2-3, those of the last applied sample;
      every other bit 0, whatever a driver reported. */
  lemma FaultWordHistory(p: Persisted, wall: int, ops: seq<Op>)
    ensures WireWord(Run(BootStore(p, wall), ops).snap.faultBits, Run(BootStore(p, wall), ops).snap.modeReject)
         == (if LastInputFault(ops) || RejectPending(ops) then {INPUT_BIT} else {})
          + (if LastOutputFault(ops) then {OUTPUT_BIT} else {})
          + LastReported(ops) * {MODE_UNKNOWN_BIT, CALIBRATION_BIT}
  {
    FaultBitsHistory(p, wall, ops);
    RejectLatchHistory(p, wall, ops);
  }
}
