/** Request handling: write validation, command translation, and the register image. */
module ModbusServer {
  import opened Domain
  import opened FaultBits
  import opened Registers

  /** The requests the server defines, and the write codes it refuses outright. */
  datatype Request =
    | ReadRegisters(address: nat, count: nat)
    | WriteSingle(address: nat, value: int)
    | WriteMultiple(address: nat, values: seq<int>)
    | WriteCoils(address: nat)
    | ReadWriteMultiple(readAddress: nat, writeAddress: nat, values: seq<int>)

  predicate IsHoldingWrite(r: Request) {
    r.WriteSingle? || r.WriteMultiple?
  }

  /** The tracker's test: a holding write whose first register is in the command band. */
  predicate IsCommandWrite(r: Request) {
    IsHoldingWrite(r) && IsCommandAddress(r.address)
  }

  function WrittenValues(r: Request): seq<int>
    requires IsHoldingWrite(r)
  {
    if r.WriteSingle? then [r.value] else r.values
  }

  // ─── Write requests ───────────────────────────────────────────────

  /** Store and verdict after probing `count` registers from `addr`, stopping at the first refusal. */
  function ProbeAll(s: Store, addr: int, count: nat): (Store, bool)
    decreases count
  {
    if count == 0 then (s, true)
    else if !Allowed(addr, s.snap.atsMode) then (Probed(s, addr), false)
    else ProbeAll(s, addr + 1, count - 1)
  }

  /** Store and intents after writing `values` from `addr`. */
  function WriteAll(s: Store, addr: int, values: seq<int>): (Store, seq<CommandIntent>)
    decreases |values|
  {
    if values == [] then (s, [])
    else
      var intent := WriteIntent(s, addr, values[0]);
      var (after, intents) := WriteAll(Written(s, addr, values[0]), addr + 1, values[1..]);
      (after, (if intent.Some? then [intent.value] else []) + intents)
  }

  /** What one request does: the store after it, whether it was accepted, the commands it dispatches. */
  datatype Reply = Reply(store: Store, accepted: bool, intents: seq<CommandIntent>)

  function Handle(s: Store, r: Request): Reply {
    match r
    case ReadRegisters(_, _) => Reply(s, true, [])
    case WriteCoils(_) => Reply(s, false, [])
    case ReadWriteMultiple(_, _, _) => Reply(s, false, [])
    case _ =>
      var (probed, ok) := ProbeAll(s, r.address, |WrittenValues(r)|);
      if !ok then Reply(probed, false, [])
      else
        var (after, intents) := WriteAll(probed, r.address, WrittenValues(r));
        Reply(after, true, intents)
  }

  /** The guarded slave context: refuses what must not be written. */
  method Validate(store: RegisterStore, r: Request) returns (ok: bool)
    modifies store
    ensures IsHoldingWrite(r) ==>
      (store.View(), ok) == ProbeAll(old(store.View()), r.address, |WrittenValues(r)|)
    ensures !IsHoldingWrite(r) ==> store.View() == old(store.View()) && ok == r.ReadRegisters?
  {
    if r.WriteCoils? || r.ReadWriteMultiple? {
      return false;
    }
    if IsHoldingWrite(r) {
      var count := |WrittenValues(r)|;
      for offset := 0 to count
        invariant store.View() == old(store.View())
        invariant ProbeAll(old(store.View()), r.address, count)
               == ProbeAll(old(store.View()), r.address + offset, count - offset)
      {
        var target := r.address + offset;
        if !IsCommandAddress(target) {
          return false;
        }
        var permitted := store.CanWrite(target);
        if !permitted {
          return false;
        }
      }
      return true;
    }
    return true;
  }

  function Dispatch(intent: Option<CommandIntent>): seq<CommandIntent> {
    if intent.Some? then [intent.value] else []
  }

  /** With `done` dispatched, the writes from `i` on complete `whole`. */
  predicate Completes(whole: (Store, seq<CommandIntent>), done: seq<CommandIntent>,
                      s: Store, addr: int, values: seq<int>, i: nat)
    requires i <= |values|
  {
    var rest := WriteAll(s, addr + i, values[i..]);
    whole == (rest.0, done + rest.1)
  }

  lemma WriteNext(whole: (Store, seq<CommandIntent>), done: seq<CommandIntent>,
                  s: Store, addr: int, values: seq<int>, i: nat)
    requires i < |values| && Completes(whole, done, s, addr, values, i)
    ensures var intent := WriteIntent(s, addr + i, values[i]);
      Completes(whole, done + Dispatch(intent), Written(s, addr + i, values[i]), addr, values, i + 1)
  {
    assert values[i..][0] == values[i] && values[i..][1..] == values[i + 1..];
    var intent := Dispatch(WriteIntent(s, addr + i, values[i]));
    var rest := WriteAll(Written(s, addr + i, values[i]), addr + (i + 1), values[i + 1..]).1;
    assert done + (intent + rest) == (done + intent) + rest;
  }

  /** The data block's write hook; `address` is 1-based, as the library passes it. */
  method SetValues(store: RegisterStore, address: int, values: seq<int>) returns (dispatched: seq<CommandIntent>)
    modifies store
    ensures (store.View(), dispatched) == WriteAll(old(store.View()), address - 1, values)
  {
    dispatched := [];
    ghost var whole := WriteAll(store.View(), address - 1, values);
    assert values[0..] == values && dispatched + whole.1 == whole.1;
    for i := 0 to |values|
      invariant Completes(whole, dispatched, store.View(), address - 1, values, i)
    {
      WriteNext(whole, dispatched, store.View(), address - 1, values, i);
      var intent := store.WriteRegister(address - 1 + i, values[i]);
      if intent.Some? {
        dispatched := dispatched + [intent.value];
      } else {
        assert dispatched + [] == dispatched;
      }
    }
    assert dispatched + [] == dispatched;
  }

  /** A request as the server executes it: validate, then write. */
  method Execute(store: RegisterStore, r: Request) returns (accepted: bool, dispatched: seq<CommandIntent>)
    modifies store
    ensures Reply(store.View(), accepted, dispatched) == Handle(old(store.View()), r)
  {
    accepted := Validate(store, r);
    dispatched := [];
    if accepted && IsHoldingWrite(r) {
      dispatched := SetValues(store, r.address + 1, WrittenValues(r));
    }
  }

  /** The commands of the values that match a pattern, in register order, whatever the mode. */
  function Patterns(addr: int, values: seq<int>): seq<CommandIntent>
    decreases |values|
  {
    if values == [] then [] else
      var rest := Patterns(addr + 1, values[1..]);
      match Pattern(addr, values[0])
      case Some(intent) => [intent] + rest
      case None => rest
  }

  /** Every register in `lo..hi` may be written in this mode. */
  predicate AllAllowed(lo: int, hi: int, mode: Mode) {
    forall a :: lo <= a < hi ==> Allowed(a, mode)
  }

  /** `a` is the first register in `lo..hi` that may not. */
  predicate FirstRefused(lo: int, hi: int, mode: Mode, a: int) {
    lo <= a < hi && AllAllowed(lo, a, mode) && !Allowed(a, mode)
  }

  lemma {:induction false} ProbeAllDecides(s: Store, addr: int, count: nat)
    ensures ProbeAll(s, addr, count).1 <==> AllAllowed(addr, addr + count, s.snap.atsMode)
    ensures ProbeAll(s, addr, count).1 ==> ProbeAll(s, addr, count).0 == s
    ensures !ProbeAll(s, addr, count).1 ==>
      exists a :: FirstRefused(addr, addr + count, s.snap.atsMode, a)
               && ProbeAll(s, addr, count).0 == if IsCommandAddress(a) then WithReject(s, true) else s
    decreases count
  {
    if count > 0 {
      var mode := s.snap.atsMode;
      if Allowed(addr, mode) {
        ProbeAllDecides(s, addr + 1, count - 1);
        if !ProbeAll(s, addr, count).1 {
          var a :| FirstRefused(addr + 1, addr + count, mode, a)
                && ProbeAll(s, addr, count).0 == if IsCommandAddress(a) then WithReject(s, true) else s;
          assert FirstRefused(addr, addr + count, mode, a);
        }
      } else {
        assert FirstRefused(addr, addr + count, mode, addr);
      }
    }
  }

  lemma {:induction false} WriteAllMatches(s: Store, addr: int, values: seq<int>)
    requires AllAllowed(addr, addr + |values|, s.snap.atsMode)
    ensures WriteAll(s, addr, values).1 == Patterns(addr, values)
    ensures WriteAll(s, addr, values).0 == if Patterns(addr, values) == [] then s else WithReject(s, false)
    decreases |values|
  {
    if values != [] {
      assert Allowed(addr, s.snap.atsMode);
      WriteAllMatches(Written(s, addr, values[0]), addr + 1, values[1..]);
    }
  }

  /** A holding write is all or nothing. It is accepted exactly when every addressed register is a
      command register permitted in the current mode; then it dispatches the commands of the
      pattern-matching values, in order, and no register is refused a second time. Refused, it
      dispatches nothing and at most latches the rejection, which it does exactly when the first
      register at fault is a command register. */
  lemma WritesAreAllOrNothing(s: Store, r: Request)
    requires IsHoldingWrite(r)
    ensures var values := if r.WriteSingle? then [r.value] else r.values;
      var hi, mode, reply := r.address + |values|, s.snap.atsMode, Handle(s, r);
      && (reply.accepted <==> AllAllowed(r.address, hi, mode))
      && (reply.accepted ==>
            && reply.intents == Patterns(r.address, values)
            && reply.store == if reply.intents == [] then s else WithReject(s, false))
      && (!reply.accepted ==>
            && reply.intents == []
            && exists a :: FirstRefused(r.address, hi, mode, a)
                 && reply.store == if IsCommandAddress(a) then WithReject(s, true) else s)
  {
    ProbeAllDecides(s, r.address, |WrittenValues(r)|);
    if Handle(s, r).accepted {
      WriteAllMatches(s, r.address, WrittenValues(r));
    }
  }

  /** The mode policy: auto permits every command register, manual only Inhibit, the others none. */
  lemma ModePolicy(addr: int, mode: Mode)
    ensures Allowed(addr, mode) <==>
      match mode
      case Auto => addr in {0x0100, 0x0101, 0x0102, 0x0103}
      case Manual => addr == 0x0101
      case TestMode => false
      case UnknownMode => false
  {
  }

  /** A request that is not a command-band write changes nothing in the store and dispatches nothing;
      reads are answered, coil writes and combined reads and writes are refused. */
  lemma OtherRequestsAreInert(s: Store, r: Request)
    requires !IsCommandWrite(r)
    ensures Handle(s, r).store == s && Handle(s, r).intents == []
    ensures r.ReadRegisters? ==> Handle(s, r).accepted
    ensures r.WriteCoils? || r.ReadWriteMultiple? ==> !Handle(s, r).accepted
    ensures r.WriteSingle? ==> !Handle(s, r).accepted
  {
  }

  /** Before a mode is known, every request is inert except for the rejection latch. */
  lemma UnknownModeRefuses(s: Store, r: Request)
    requires s.snap.atsMode == UnknownMode
    ensures Handle(s, r).intents == []
    ensures Handle(s, r).store == s || Handle(s, r).store == WithReject(s, true)
  {
  }

  // ─── The register image ───────────────────────────────────────────

  datatype Identity = Identity(
    unitId: int, icdMajor: int, icdMinor: int, fwMajor: int, fwMinor: int, fwPatch: int, bootMs: int)

  /** The time pinned for one request: monotonic milliseconds and wall-clock seconds. */
  datatype Pinned = Pinned(monoMs: int, wall: int)

  function Uptime(id: Identity, now: Pinned): int {
    var ms := now.monoMs - id.bootMs;
    if ms >= 0 then ms / 1000 else -((-ms) / 1000)
  }

  function High(x: int): int { (x / 0x10000) % 0x10000 }

  function Low(x: int): int { x % 0x10000 }

  function Flag(b: bool): int { if b then 1 else 0 }

  function PositionValue(p: Position): int {
    match p case Utility => 0 case Generator => 1 case Transferring => 2 case UnknownPosition => 3
  }

  function ModeValue(m: Mode): int {
    match m case Auto => 0 case Manual => 1 case TestMode => 2 case UnknownMode => 3
  }

  /** `read_register`: the word at one address, with time pinned. */
  function Word(s: Store, id: Identity, now: Pinned, addr: int): int {
    var snap := s.snap;
    if addr == 0x0000 then PositionValue(snap.position)
    else if addr == 0x0001 then Flag(snap.normalAvailable)
    else if addr == 0x0002 then Flag(snap.emergencyAvailable)
    else if addr == 0x0003 then Flag(snap.engineStartCalling)
    else if addr == 0x0004 then ModeValue(snap.atsMode)
    else if addr == 0x0005 then WordValue(WireWord(snap.faultBits, snap.modeReject))
    else if addr == 0x0010 then High(snap.lastToGenerator)
    else if addr == 0x0011 then Low(snap.lastToGenerator)
    else if addr == 0x0012 then High(snap.lastToUtility)
    else if addr == 0x0013 then Low(snap.lastToUtility)
    else if addr == 0x0014 then High(Uptime(id, now))
    else if addr == 0x0015 then Low(Uptime(id, now))
    else if addr == 0x0016 then High(now.wall)
    else if addr == 0x0017 then Low(now.wall)
    else if addr == 0x0020 then High(snap.lifetime)
    else if addr == 0x0021 then Low(snap.lifetime)
    else if addr == 0x0022 then High(snap.count24h)
    else if addr == 0x0023 then Low(snap.count24h)
    else if addr == 0x0030 then id.icdMajor
    else if addr == 0x0031 then id.icdMinor
    else if addr == 0x0032 then id.fwMajor
    else if addr == 0x0033 then id.fwMinor
    else if addr == 0x0034 then id.fwPatch
    else if addr == 0x0035 then id.unitId
    else if addr == 0x0040 then Flag(TestRelay in snap.active)
    else if addr == 0x0041 then Flag(InhibitRelay in snap.active)
    else if addr == 0x0042 then Flag(ForceRelay in snap.active)
    else if addr == 0x0043 then Flag(BypassRelay in snap.active)
    else 0
  }

  /** `getValues`: one comprehension with time pinned once; `address` is 1-based. */
  function GetValues(s: Store, id: Identity, now: Pinned, address: int, count: nat): seq<int> {
    seq(count, i => Word(s, id, now, address - 1 + i))
  }

  /** The answer to a read request. */
  function ReadReply(s: Store, id: Identity, now: Pinned, r: Request): (words: seq<int>)
    requires r.ReadRegisters?
    ensures |words| == r.count && forall i :: 0 <= i < r.count ==> words[i] == Word(s, id, now, r.address + i)
  {
    GetValues(s, id, now, r.address + 1, r.count)
  }

  /** The whole 65536-word address space at one instant. */
  function RegisterImage(s: Store, id: Identity, now: Pinned): seq<int> {
    GetValues(s, id, now, 1, 0x10000)
  }

  /** Every read inside the address space is a slice of one image, so splitting a read changes nothing. */
  lemma ReadsAreSlices(s: Store, id: Identity, now: Pinned, addr: nat, count: nat, cut: nat)
    requires addr + count <= 0x10000 && cut <= count
    ensures ReadReply(s, id, now, ReadRegisters(addr, count)) == RegisterImage(s, id, now)[addr..addr + count]
    ensures ReadReply(s, id, now, ReadRegisters(addr, count))
         == ReadReply(s, id, now, ReadRegisters(addr, cut))
          + ReadReply(s, id, now, ReadRegisters(addr + cut, count - cut))
  {
  }

  /** What a client reconstructs from two words read high word first. */
  function U32(words: seq<int>): int
    requires |words| == 2
  {
    words[0] * 0x10000 + words[1]
  }

  lemma HighLow(x: int)
    ensures High(x) * 0x10000 + Low(x) == x % 0x1_0000_0000
    ensures 0 <= High(x) < 0x10000 && 0 <= Low(x) < 0x10000
  {
  }

  /** A two-word read at `addr` decodes to `field` modulo 2^32. */
  predicate Decodes(s: Store, id: Identity, now: Pinned, addr: nat, field: int) {
    U32(ReadReply(s, id, now, ReadRegisters(addr, 2))) == field % 0x1_0000_0000
  }

  /** One two-word read of each 32-bit field decodes to that field modulo 2^32. */
  lemma WidePairsDecode(s: Store, id: Identity, now: Pinned)
    ensures Decodes(s, id, now, 0x0010, s.snap.lastToGenerator)
    ensures Decodes(s, id, now, 0x0012, s.snap.lastToUtility)
    ensures Decodes(s, id, now, 0x0014, Uptime(id, now))
    ensures Decodes(s, id, now, 0x0016, now.wall)
    ensures Decodes(s, id, now, 0x0020, s.snap.lifetime)
    ensures Decodes(s, id, now, 0x0022, s.snap.count24h)
  {
    PairDecodes(s, id, now, 0x0010, s.snap.lastToGenerator);
    PairDecodes(s, id, now, 0x0012, s.snap.lastToUtility);
    PairDecodes(s, id, now, 0x0014, Uptime(id, now));
    PairDecodes(s, id, now, 0x0016, now.wall);
    PairDecodes(s, id, now, 0x0020, s.snap.lifetime);
    PairDecodes(s, id, now, 0x0022, s.snap.count24h);
  }

  lemma PairDecodes(s: Store, id: Identity, now: Pinned, addr: nat, field: int)
    requires Word(s, id, now, addr) == High(field) && Word(s, id, now, addr + 1) == Low(field)
    ensures Decodes(s, id, now, addr, field)
  {
    HighLow(field);
  }

  /** The identification block, in one read. */
  lemma IdentityReads(s: Store, id: Identity, now: Pinned)
    ensures ReadReply(s, id, now, ReadRegisters(0x0030, 6))
         == [id.icdMajor, id.icdMinor, id.fwMajor, id.fwMinor, id.fwPatch, id.unitId]
  {
  }

  /** The uptime a client decodes is the number of whole seconds since boot, truncated towards zero. */
  lemma UptimeIsWholeSeconds(s: Store, id: Identity, now: Pinned)
    requires -1000 < now.monoMs - id.bootMs < 1000 * 0x1_0000_0000
    ensures var u, ms := U32(ReadReply(s, id, now, ReadRegisters(0x0014, 2))), now.monoMs - id.bootMs;
      if ms < 0 then u == 0 else 1000 * u <= ms < 1000 * (u + 1)
  {
    WidePairsDecode(s, id, now);
  }

  /** What a client decodes from the six core words. */
  datatype Core = Core(position: Position, normal: bool, emergency: bool, engine: bool, mode: Mode, faults: Bits)

  function DecodeCore(words: seq<int>): Core
    requires |words| == 6
  {
    Core(
      if words[0] == 0 then Utility else if words[0] == 1 then Generator
        else if words[0] == 2 then Transferring else UnknownPosition,
      words[1] != 0, words[2] != 0, words[3] != 0,
      if words[4] == 0 then Auto else if words[4] == 1 then Manual else if words[4] == 2 then TestMode else UnknownMode,
      DecodeFaults(words[5]))
  }

  function DecodeFaults(v: int): Bits {
    (if v % 2 == 1 then {INPUT_BIT} else {}) + (if (v / 2) % 2 == 1 then {OUTPUT_BIT} else {})
    + (if (v / 4) % 2 == 1 then {MODE_UNKNOWN_BIT} else {}) + (if (v / 8) % 2 == 1 then {CALIBRATION_BIT} else {})
  }

  /** One six-word read gives a client back the core state, with the fault word as on the wire. */
  lemma CoreRoundTrips(s: Store, id: Identity, now: Pinned)
    ensures DecodeCore(ReadReply(s, id, now, ReadRegisters(0x0000, 6)))
         == Core(s.snap.position, s.snap.normalAvailable, s.snap.emergencyAvailable, s.snap.engineStartCalling,
                 s.snap.atsMode, WireWord(s.snap.faultBits, s.snap.modeReject))
  {
  }

  /** The fault word a client reads, bit by bit of what the drivers and the orchestrator set. */
  lemma FaultRegisterReads(s: Store, id: Identity, now: Pinned)
    ensures var bits := s.snap.faultBits;
      ReadReply(s, id, now, ReadRegisters(0x0005, 1)) ==
        [(if 0 in bits || s.snap.modeReject then 1 else 0) + (if 1 in bits then 2 else 0)
         + (if 2 in bits then 4 else 0) + (if 3 in bits then 8 else 0)]
  {
  }

  /** The relay each read-back register reports. */
  function ReadBackAddress(r: Relay): nat {
    match r case TestRelay => 0x0040 case InhibitRelay => 0x0041 case ForceRelay => 0x0042 case BypassRelay => 0x0043
  }

  /** The register and value a client writes to give a command. */
  function Encoding(i: CommandIntent): (nat, int) {
    match i
    case PulseTest(_) => (0x0100, 1)
    case SetInhibit(on) => (0x0101, Flag(on))
    case SetForce(on) => (0x0102, Flag(on))
    case PulseBypass(_) => (0x0103, 1)
  }

  /** Writing a command's encoding is the one way to give it: decoding and encoding are inverse. */
  lemma CommandsRoundTrip(addr: nat, value: int, i: CommandIntent)
    requires i.PulseTest? || i.PulseBypass? ==> i.ms == 750
    ensures Pattern(addr, value) == Some(i) <==> Encoding(i) == (addr, value)
  {
  }

  predicate Assigned(addr: int) {
    0x00 <= addr <= 0x05 || 0x10 <= addr <= 0x17 || 0x20 <= addr <= 0x23
    || 0x30 <= addr <= 0x35 || 0x40 <= addr <= 0x43
  }

  predicate FitsWire(id: Identity) {
    && 0 <= id.unitId < 0x10000 && 0 <= id.icdMajor < 0x10000 && 0 <= id.icdMinor < 0x10000
    && 0 <= id.fwMajor < 0x10000 && 0 <= id.fwMinor < 0x10000 && 0 <= id.fwPatch < 0x10000
  }

  /** Unassigned addresses read 0, and every word fits 16 bits exactly when unit id and versions do. */
  lemma ImageIsWellFormed(s: Store, id: Identity, now: Pinned)
    ensures forall addr :: !Assigned(addr) ==> Word(s, id, now, addr) == 0
    ensures FitsWire(id) <==> forall addr :: 0 <= Word(s, id, now, addr) < 0x10000
  {
    HighLow(s.snap.lastToGenerator);
    HighLow(s.snap.lastToUtility);
    HighLow(Uptime(id, now));
    HighLow(now.wall);
    HighLow(s.snap.lifetime);
    HighLow(s.snap.count24h);
    if forall addr :: 0 <= Word(s, id, now, addr) < 0x10000 {
      assert forall addr | 0x30 <= addr <= 0x35 :: 0 <= Word(s, id, now, addr) < 0x10000;
      assert Word(s, id, now, 0x30) == id.icdMajor && Word(s, id, now, 0x31) == id.icdMinor;
      assert Word(s, id, now, 0x32) == id.fwMajor && Word(s, id, now, 0x33) == id.fwMinor;
      assert Word(s, id, now, 0x34) == id.fwPatch && Word(s, id, now, 0x35) == id.unitId;
    }
  }
}
