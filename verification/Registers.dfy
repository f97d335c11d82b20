/** The register store: specification functions on its value, and the class that updates it in place. */
module Registers {
  import opened Domain
  import opened FaultBits

  const ADDR_CMD_TEST := 0x0100
  const ADDR_CMD_INHIBIT := 0x0101
  const ADDR_CMD_FORCE_TRANSFER := 0x0102
  const ADDR_CMD_BYPASS_DELAY := 0x0103

  const DEFAULT_PULSE_MS := 750
  const ROLLING_WINDOW_S := 24 * 3600

  /** The immutable snapshot that writers swap. `active` holds the four command read-backs. */
  datatype Snapshot = Snapshot(
    position: Position,
    normalAvailable: bool,
    emergencyAvailable: bool,
    engineStartCalling: bool,
    atsMode: Mode,
    faultBits: Bits,
    lastToGenerator: int,
    lastToUtility: int,
    lifetime: int,
    count24h: nat,
    active: set<Relay>,
    modeReject: bool)

  /** `recent` is the deque of transfer wall-clocks, oldest first. */
  datatype Store = Store(snap: Snapshot, recent: seq<int>)

  /** The subset of the store that survives a restart. */
  datatype Persisted = Persisted(lifetime: int, lastToGenerator: int, lastToUtility: int, recent: seq<int>)

  const ZEROS := Persisted(0, 0, 0, [])

  /** How an applied sample is saved: not at all, handed to the executor, or before anyone can read it. */
  datatype SaveKind = NoSave | ExecutorSave | CriticalSave

  // ─── Construction ─────────────────────────────────────────────────

  /** The timestamps at or after `cutoff`, in order. */
  function Since(ts: seq<int>, cutoff: int): (r: seq<int>)
    ensures forall t :: t in r ==> t >= cutoff
    ensures |r| <= |ts|
  {
    if ts == [] then []
    else if ts[0] >= cutoff then [ts[0]] + Since(ts[1..], cutoff)
    else Since(ts[1..], cutoff)
  }

  function BootStore(p: Persisted, wall: int): Store {
    var recent := Since(p.recent, wall - ROLLING_WINDOW_S);
    Store(
      Snapshot(UnknownPosition, false, false, false, UnknownMode, {},
               p.lastToGenerator, p.lastToUtility, p.lifetime, |recent|, {}, false),
      recent)
  }

  function Image(s: Store): Persisted {
    Persisted(s.snap.lifetime, s.snap.lastToGenerator, s.snap.lastToUtility, s.recent)
  }

  // ─── Sampling-loop writers ────────────────────────────────────────

  predicate ToGenerator(before: Position, after: Position) {
    (before == Utility || before == Transferring) && after == Generator
  }

  predicate ToUtility(before: Position, after: Position) {
    (before == Generator || before == Transferring) && after == Utility
  }

  function Evict(ts: seq<int>, cutoff: int): seq<int> {
    if ts != [] && ts[0] < cutoff then Evict(ts[1..], cutoff) else ts
  }

  function SaveKindFor(s: Store, inputs: InputSnapshot): SaveKind {
    if ToGenerator(s.snap.position, inputs.position) then CriticalSave
    else if ToUtility(s.snap.position, inputs.position) then ExecutorSave
    else NoSave
  }

  function ApplyInputs(s: Store, inputs: InputSnapshot, wall: int): Store {
    var toGen := ToGenerator(s.snap.position, inputs.position);
    var toUtil := ToUtility(s.snap.position, inputs.position);
    var recent := Evict(if toGen then s.recent + [wall] else s.recent, wall - ROLLING_WINDOW_S);
    Store(
      s.snap.(
        position := inputs.position,
        normalAvailable := inputs.normalAvailable,
        emergencyAvailable := inputs.emergencyAvailable,
        engineStartCalling := inputs.engineStartCalling,
        atsMode := inputs.atsMode,
        faultBits := MergeFaults(s.snap.faultBits, inputs.faultBits),
        lastToGenerator := if toGen then wall else s.snap.lastToGenerator,
        lastToUtility := if toUtil then wall else s.snap.lastToUtility,
        lifetime := if toGen then s.snap.lifetime + 1 else s.snap.lifetime,
        count24h := |recent|),
      recent)
  }

  function ApplyOutputs(s: Store, outputs: set<Relay>): Store {
    s.(snap := s.snap.(active := outputs))
  }

  function SetInputFault(s: Store, on: bool): Store {
    s.(snap := s.snap.(faultBits := WithBit(s.snap.faultBits, INPUT_BIT, on)))
  }

  function SetOutputFault(s: Store, on: bool): Store {
    s.(snap := s.snap.(faultBits := WithBit(s.snap.faultBits, OUTPUT_BIT, on)))
  }

  function ReleaseMaintained(s: Store): Store {
    s.(snap := s.snap.(active := s.snap.active - {InhibitRelay, ForceRelay}))
  }

  // ─── Modbus-side ──────────────────────────────────────────────────

  predicate IsCommandAddress(addr: int) {
    ADDR_CMD_TEST <= addr <= ADDR_CMD_BYPASS_DELAY
  }

  predicate Allowed(addr: int, mode: Mode) {
    IsCommandAddress(addr) && (mode == Auto || (addr == ADDR_CMD_INHIBIT && mode == Manual))
  }

  /** The command a value written to an allowed command register means, if it matches a pattern. */
  function Pattern(addr: int, value: int): Option<CommandIntent> {
    if addr == ADDR_CMD_TEST && value == 1 then Some(PulseTest(DEFAULT_PULSE_MS))
    else if addr == ADDR_CMD_INHIBIT && (value == 0 || value == 1) then Some(SetInhibit(value == 1))
    else if addr == ADDR_CMD_FORCE_TRANSFER && (value == 0 || value == 1) then Some(SetForce(value == 1))
    else if addr == ADDR_CMD_BYPASS_DELAY && value == 1 then Some(PulseBypass(DEFAULT_PULSE_MS))
    else None
  }

  function WithReject(s: Store, on: bool): Store {
    s.(snap := s.snap.(modeReject := on))
  }

  /** Store after `can_write(addr)`: a mode rejection latches, nothing else changes. */
  function Probed(s: Store, addr: int): Store {
    if IsCommandAddress(addr) && !Allowed(addr, s.snap.atsMode) then WithReject(s, true) else s
  }

  function WriteIntent(s: Store, addr: int, value: int): Option<CommandIntent> {
    if Allowed(addr, s.snap.atsMode) then Pattern(addr, value) else None
  }

  /** Store after `write_register(addr, value)`. */
  function Written(s: Store, addr: int, value: int): Store {
    if IsCommandAddress(addr) && !Allowed(addr, s.snap.atsMode) then WithReject(s, true)
    else if WriteIntent(s, addr, value).Some? then WithReject(s, false)
    else s
  }

  // ─── The class ────────────────────────────────────────────────────

  class RegisterStore {
    var snap: Snapshot
    var recent: seq<int>

    function View(): Store
      reads this
    {
      Store(snap, recent)
    }

    constructor (p: Persisted, wall: int)
      ensures View() == BootStore(p, wall)
    {
      var kept := Since(p.recent, wall - ROLLING_WINDOW_S);
      recent := kept;
      snap := Snapshot(UnknownPosition, false, false, false, UnknownMode, {},
                       p.lastToGenerator, p.lastToUtility, p.lifetime, |kept|, {}, false);
    }

    /** Apply a fresh read; the caller persists the returned image in the returned way. */
    method ApplyInputSnapshot(inputs: InputSnapshot, wall: int) returns (kind: SaveKind, image: Persisted)
      modifies this
      ensures View() == ApplyInputs(old(View()), inputs, wall)
      ensures kind == SaveKindFor(old(View()), inputs)
      ensures image == Image(View())
    {
      kind := NoSave;
      var prev := snap;
      var toGen, toUtil, lifetime := prev.lastToGenerator, prev.lastToUtility, prev.lifetime;
      if prev.position in {Utility, Transferring} && inputs.position == Generator {
        toGen, lifetime := wall, prev.lifetime + 1;
        recent := recent + [wall];
        kind := CriticalSave;
      } else if prev.position in {Generator, Transferring} && inputs.position == Utility {
        toUtil := wall;
        kind := ExecutorSave;
      }
      EvictOldTransfers(wall);
      snap := Snapshot(inputs.position, inputs.normalAvailable, inputs.emergencyAvailable,
                       inputs.engineStartCalling, inputs.atsMode,
                       MergeFaults(prev.faultBits, inputs.faultBits),
                       toGen, toUtil, lifetime, |recent|, prev.active, prev.modeReject);
      image := Persisted(snap.lifetime, snap.lastToGenerator, snap.lastToUtility, recent);
    }

    /** Pops expired entries off the front of the deque, and only off the front. */
    method EvictOldTransfers(wall: int)
      modifies this`recent
      ensures recent == Evict(old(recent), wall - ROLLING_WINDOW_S)
    {
      var cutoff := wall - ROLLING_WINDOW_S;
      while recent != [] && recent[0] < cutoff
        invariant Evict(recent, cutoff) == Evict(old(recent), cutoff)
        decreases |recent|
      {
        recent := recent[1..];
      }
    }

    method ApplyOutputState(outputs: set<Relay>)
      modifies this
      ensures View() == ApplyOutputs(old(View()), outputs)
    {
      snap := snap.(active := outputs);
    }

    method PublishInputFault(on: bool)
      modifies this
      ensures View() == SetInputFault(old(View()), on)
    {
      snap := snap.(faultBits := WithBit(snap.faultBits, INPUT_BIT, on));
    }

    method PublishOutputFault(on: bool)
      modifies this
      ensures View() == SetOutputFault(old(View()), on)
    {
      snap := snap.(faultBits := WithBit(snap.faultBits, OUTPUT_BIT, on));
    }

    method ReleaseMaintainedCommands()
      modifies this
      ensures View() == ReleaseMaintained(old(View()))
    {
      snap := snap.(active := snap.active - {InhibitRelay, ForceRelay});
    }

    method CanWrite(addr: int) returns (ok: bool)
      modifies this
      ensures ok == Allowed(addr, old(View()).snap.atsMode)
      ensures View() == Probed(old(View()), addr)
    {
      if !IsCommandAddress(addr) {
        return false;
      }
      if !Allowed(addr, snap.atsMode) {
        snap := snap.(modeReject := true);
        return false;
      }
      return true;
    }

    method WriteRegister(addr: int, value: int) returns (intent: Option<CommandIntent>)
      modifies this
      ensures intent == WriteIntent(old(View()), addr, value)
      ensures View() == Written(old(View()), addr, value)
    {
      intent := None;
      if !IsCommandAddress(addr) {
        return;
      }
      if !Allowed(addr, snap.atsMode) {
        snap := snap.(modeReject := true);
        return;
      }
      intent := Pattern(addr, value);
      if intent.Some? && snap.modeReject {
        snap := snap.(modeReject := false);
      }
    }
  }
}
